/** How stale the two caches of services/installation.py can get: the reach of a cached report,
    and what an abandoned write leaves behind. */
module InstallationStaleness {
  import opened Options
  import opened InstallationCache

  // ---- staleness ----------------------------------------------------------------

  /** Staleness with writers outside this process: a snapshot served from the cache at time
      t includes every commit up to t - TTL; a report served from its own cache, which is
      filled from snapshots that may themselves be cached, every commit up to t - 2 TTL. */
  lemma StalenessBound(config: Config, labels: seq<Label>)
    ensures var s := Exec(Init(config), labels);
            && (var hit := CachedSnapshot(s.cache, s.now);
                hit.Some? ==> IncludesUpTo(s, hit.value, s.now - 5.0))
            && (var view := CachedView(s.cache, s.now);
                view.Some? ==> forall p :: p in view.value ==> IncludesUpTo(s, p, s.now - 10.0))
  {
    InitInv(config);
    RunKeepsInv(Init(config), labels);
    var s := Exec(Init(config), labels);
    var hit := CachedSnapshot(s.cache, s.now);
    if hit.Some? { HitIsRecent(s, hit.value); }
    var view := CachedView(s.cache, s.now);
    if view.Some? {
      forall p | p in view.value ensures IncludesUpTo(s, p, s.now - 2.0 * CACHE_TTL_S) {
        assert PartInv(s, s.settled, s.cache.report.value.0, s.cache.gen, p);
      }
    }
  }

  // A run that caches a snapshot at 0, lets another process commit at 1, and builds a
  // report from the still cached snapshot at 4.5.

  const OLD := Snapshot("old", 0, 0.0)

  function SnapshotCached(): System {
    Init("old").(cache := Cache(Some((0.0, OLD)), None, 0), tasks := [Loaded(0, OLD)])
  }

  function OtherCommitted(): System {
    SnapshotCached().(history := [Commit("old", 0.0), Commit("new", 1.0)], now := 4.5)
  }

  function ReportBuilt(): System {
    OtherCommitted().(reporter := Some(1), tasks := [Loaded(0, OLD), Building(0, 4.5, 0, [OLD], None)])
  }

  function ReportCached(): System {
    OtherCommitted().(now := 9.0, cache := Cache(Some((0.0, OLD)), Some((4.5, [OLD])), 0),
                      tasks := [Loaded(0, OLD), Reported(0, [OLD])])
  }

  function LateReport(): seq<Label> {
    [StartLoad, Fetch(0), FinishLoad(0)] + [Tick(1.0), External("new"), Tick(3.5)]
    + [StartView, TakeReport(1), BuildLoad(1)] + [FinishView(1), Tick(2.0), Tick(2.5)]
  }

  /** One TTL is not a bound for the report: served from its cache at 9, it misses a commit
      made at 1, eight seconds earlier. */
  lemma ReportOutlivesTtl()
    ensures var s := Exec(Init("old"), LateReport());
            && CachedView(s.cache, s.now) == Some([OLD])
            && !IncludesUpTo(s, OLD, s.now - CACHE_TTL_S)
  {
    ExecThree(Init("old"), StartLoad, Fetch(0), FinishLoad(0));
    assert Exec(Init("old"), [StartLoad, Fetch(0), FinishLoad(0)]) == SnapshotCached();
    ExecThree(SnapshotCached(), Tick(1.0), External("new"), Tick(3.5));
    assert Exec(SnapshotCached(), [Tick(1.0), External("new"), Tick(3.5)]) == OtherCommitted();
    ReportRun();
    var a, b := [StartLoad, Fetch(0), FinishLoad(0)], [Tick(1.0), External("new"), Tick(3.5)];
    var c, d := [StartView, TakeReport(1), BuildLoad(1)], [FinishView(1), Tick(2.0), Tick(2.5)];
    ExecAppend(Init("old"), a, b);
    ExecAppend(Init("old"), a + b, c);
    ExecAppend(Init("old"), a + b + c, d);
    assert ReportCached().history[1].at <= ReportCached().now - CACHE_TTL_S;
  }

  lemma ReportRun()
    ensures Exec(OtherCommitted(), [StartView, TakeReport(1), BuildLoad(1)]) == ReportBuilt()
    ensures Exec(ReportBuilt(), [FinishView(1), Tick(2.0), Tick(2.5)]) == ReportCached()
  {
    ExecThree(OtherCommitted(), StartView, TakeReport(1), BuildLoad(1));
    assert [] + [OLD] == [OLD];
    ExecThree(ReportBuilt(), FinishView(1), Tick(2.0), Tick(2.5));
  }

  // ---- the exact reach of a report -------------------------------------------------

  /** A served report includes every commit older than one TTL. */
  ghost predicate WithinTtl(s: System) {
    var view := CachedView(s.cache, s.now);
    view.Some? ==> forall p :: p in view.value ==> IncludesBefore(s, p, s.now - CACHE_TTL_S)
  }

  ghost predicate ReadWithinTtl(s: System) {
    var view := CachedView(s.cache, s.now);
    view.Some? ==> forall p :: p in view.value ==> s.now - CACHE_TTL_S <= p.at
  }

  /** A served report reaches exactly as far as its parts were read: each part includes every
      commit before its read and none after it, and was read less than two TTLs ago. */
  lemma ReportReach(config: Config, labels: seq<Label>)
    ensures var s := Exec(Init(config), labels);
            var view := CachedView(s.cache, s.now);
            view.Some? ==> forall p :: p in view.value ==>
              && Genuine(s, p) && s.now - 10.0 < p.at
              && (forall k :: 0 <= k < |s.history| && s.history[k].at < p.at ==> k <= p.version)
              && (forall k :: 0 <= k < |s.history| && p.at < s.history[k].at ==> p.version < k)
    ensures ReadWithinTtl(Exec(Init(config), labels)) ==> WithinTtl(Exec(Init(config), labels))
  {
    hide Do;
    InitInv(config);
    RunKeepsInv(Init(config), labels);
    var s := Exec(Init(config), labels);
    var view := CachedView(s.cache, s.now);
    if view.Some? {
      forall p | p in view.value
        ensures Genuine(s, p) && s.now - 2.0 * CACHE_TTL_S < p.at
      {
        assert PartInv(s, s.settled, s.cache.report.value.0, s.cache.gen, p);
      }
    }
  }

  // Two runs are alike when they differ only in what was committed.

  function Blur(p: Snapshot): Snapshot {
    Snapshot("", 0, p.at)
  }

  function BlurAll(ps: seq<Snapshot>): seq<Snapshot> {
    seq(|ps|, i requires 0 <= i < |ps| => Blur(ps[i]))
  }

  function BlurRead(r: Read): Read {
    match r
    case Reading(_, _) => r
    case Fetched(start, gen, snap) => Fetched(start, gen, Blur(snap))
  }

  function BlurInner(inner: Option<Read>): Option<Read> {
    if inner.Some? then Some(BlurRead(inner.value)) else None
  }

  function BlurTask(x: Task): Task {
    match x
    case Loading(_, read) => Loading(0, BlurRead(read))
    case Loaded(_, snap) => Loaded(0, Blur(snap))
    case ViewWaiting(_) => ViewWaiting(0)
    case Building(_, start, gen, parts, inner) => Building(0, start, gen, BlurAll(parts), BlurInner(inner))
    case Reported(_, parts) => Reported(0, BlurAll(parts))
    case WriteWaiting(_) => WriteWaiting("")
    case Writing(_) => Writing("")
    case Written(_) => Written(0)
    case WriteDone(_) => WriteDone(0)
    case Cancelled => Cancelled
  }

  function BlurCache(c: Cache): Cache {
    Cache(if c.snapshot.Some? then Some((c.snapshot.value.0, Blur(c.snapshot.value.1))) else None,
          if c.report.Some? then Some((c.report.value.0, BlurAll(c.report.value.1))) else None, c.gen)
  }

  ghost predicate Alike(s: System, s': System) {
    && s.history != [] && s'.history != [] && s.now == s'.now && BlurCache(s.cache) == BlurCache(s'.cache)
    && s.writer == s'.writer && s.reporter == s'.reporter && |s.tasks| == |s'.tasks|
    && forall t: nat :: t < |s.tasks| ==> AlikeAt(s, s', t)
  }

  ghost predicate AlikeAt(s: System, s': System, t: nat)
    requires t < |s.tasks| && t < |s'.tasks|
  {
    BlurTask(s.tasks[t]) == BlurTask(s'.tasks[t])
  }

  lemma BlurSnoc(a: seq<Snapshot>, b: seq<Snapshot>, p: Snapshot, q: Snapshot)
    requires BlurAll(a) == BlurAll(b) && Blur(p) == Blur(q)
    ensures BlurAll(a + [p]) == BlurAll(b + [q])
  {
    assert |a| == |BlurAll(a)| == |BlurAll(b)| == |b|;
    forall i | 0 <= i < |a| ensures Blur(a[i]) == Blur(b[i]) {
      assert BlurAll(a)[i] == BlurAll(b)[i];
    }
  }

  lemma AlikeEnabled(s: System, s': System, l: Label)
    requires Alike(s, s')
    ensures Enabled(s, l) <==> Enabled(s', l)
  {
    if HasTask(l) && l.t < |s.tasks| {
      assert AlikeAt(s, s', l.t);
      AlikeParts(s.tasks[l.t], s'.tasks[l.t]);
    }
  }

  predicate HasTask(l: Label) {
    || l.Fetch? || l.FinishLoad? || l.TakeReport? || l.BuildLoad? || l.FinishBuildLoad? || l.FinishView?
    || l.TakeWriter? || l.CommitWrite? || l.AbortWrite? || l.InvalidateWritten? || l.CancelReader? || l.AbandonWrite?
  }

  lemma AlikeParts(x: Task, y: Task)
    requires BlurTask(x) == BlurTask(y)
    ensures x.Building? ==> y.Building? && |x.parts| == |y.parts| && BlurAll(x.parts) == BlurAll(y.parts)
  {
    if x.Building? {
      assert |BlurAll(x.parts)| == |x.parts| && |BlurAll(y.parts)| == |y.parts|;
    }
  }

  /** Alike caches give alike hits. */
  lemma AlikeHits(s: System, s': System)
    requires Alike(s, s')
    ensures var hit, hit' := CachedSnapshot(s.cache, s.now), CachedSnapshot(s'.cache, s'.now);
            hit.Some? == hit'.Some? && (hit.Some? ==> Blur(hit.value) == Blur(hit'.value))
    ensures var view, view' := CachedView(s.cache, s.now), CachedView(s'.cache, s'.now);
            view.Some? == view'.Some? && (view.Some? ==> BlurAll(view.value) == BlurAll(view'.value))
  {
  }

  lemma AlikeStep(s: System, s': System, l: Label)
    requires Alike(s, s')
    ensures Alike(Do(s, l), Do(s', l))
  {
    hide BlurAll, Blur, CachedSnapshot, CachedView;
    AlikeEnabled(s, s', l);
    AlikeHits(s, s');
    if Enabled(s, l) {
      if HasTask(l) {
        assert AlikeAt(s, s', l.t);
      }
      AlikeCache(s, s', l);
      forall t: nat | t < |Do(s, l).tasks| ensures AlikeAt(Do(s, l), Do(s', l), t) {
        AlikeTask(s, s', l, t);
      }
    }
  }

  lemma AlikeCache(s: System, s': System, l: Label)
    requires Alike(s, s') && Enabled(s, l) && Enabled(s', l)
    ensures BlurCache(Do(s, l).cache) == BlurCache(Do(s', l).cache)
    ensures Do(s, l).now == Do(s', l).now && |Do(s, l).tasks| == |Do(s', l).tasks|
    ensures Do(s, l).writer == Do(s', l).writer && Do(s, l).reporter == Do(s', l).reporter
  {
    hide BlurAll, Blur, CachedSnapshot, CachedView, FetchNow, AlikeAt;
    AlikeHits(s, s');
    if HasTask(l) {
      AlikeTasks(s, s', l.t);
    }
  }

  lemma AlikeTasks(s: System, s': System, t: nat)
    requires Alike(s, s') && t < |s.tasks|
    ensures t < |s'.tasks| && BlurTask(s.tasks[t]) == BlurTask(s'.tasks[t])
  {
    assert AlikeAt(s, s', t);
  }

  lemma AlikeTask(s: System, s': System, l: Label, t: nat)
    requires Alike(s, s') && Enabled(s, l) && Enabled(s', l)
    requires t < |Do(s, l).tasks| && t < |Do(s', l).tasks|
    ensures AlikeAt(Do(s, l), Do(s', l), t)
  {
    if t >= |s.tasks| {
      AlikeStarted(s, s', l);
    } else {
      AlikeTasks(s, s', t);
      AlikeParts(s.tasks[t], s'.tasks[t]);
      if l.BuildLoad? || l.FinishBuildLoad? || l.TakeReport? {
        AlikeBuilding(s, s', l, t);
      } else {
        AlikeOther(s, s', l, t);
      }
    }
  }

  lemma AlikeStarted(s: System, s': System, l: Label)
    requires Alike(s, s') && Enabled(s, l) && |Do(s, l).tasks| > |s.tasks|
    ensures AlikeAt(Do(s, l), Do(s', l), |s.tasks|)
  {
    hide BlurAll, CachedSnapshot, CachedView, StoreSnapshot, StoreReport, Invalidated, FetchNow;
    AlikeHits(s, s');
  }

  lemma AlikeBuilding(s: System, s': System, l: Label, t: nat)
    requires Alike(s, s') && Enabled(s, l) && Enabled(s', l) && t < |s.tasks|
    requires l.BuildLoad? || l.FinishBuildLoad? || l.TakeReport?
    requires t < |Do(s, l).tasks| && t < |Do(s', l).tasks|
    ensures AlikeAt(Do(s, l), Do(s', l), t)
  {
    hide BlurAll, CachedSnapshot, CachedView, StoreSnapshot, StoreReport, Invalidated, FetchNow;
    AlikeHits(s, s');
    AlikeTasks(s, s', t);
    var x, y := s.tasks[t], s'.tasks[t];
    AlikeParts(x, y);
    if l.BuildLoad? && l.t == t {
      var hit, hit' := CachedSnapshot(s.cache, s.now), CachedSnapshot(s'.cache, s'.now);
      if hit.Some? {
        BlurSnoc(x.parts, y.parts, hit.value, hit'.value);
      }
    } else if l.FinishBuildLoad? && l.t == t {
      BlurSnoc(x.parts, y.parts, x.inner.value.snap, y.inner.value.snap);
    } else if l.TakeReport? && l.t == t {
      NoneBlurred();
    }
  }

  lemma AlikeOther(s: System, s': System, l: Label, t: nat)
    requires Alike(s, s') && Enabled(s, l) && Enabled(s', l) && t < |s.tasks|
    requires !l.BuildLoad? && !l.FinishBuildLoad? && !l.TakeReport?
    requires t < |Do(s, l).tasks| && t < |Do(s', l).tasks|
    ensures AlikeAt(Do(s, l), Do(s', l), t)
  {
    hide BlurAll, CachedSnapshot, CachedView, StoreSnapshot, StoreReport, Invalidated;
    AlikeTasks(s, s', t);
    AlikeParts(s.tasks[t], s'.tasks[t]);
  }

  lemma NoneBlurred()
    ensures BlurAll([]) == []
  {
  }

  lemma {:induction false} AlikeRun(s: System, s': System, labels: seq<Label>)
    requires Alike(s, s')
    ensures Alike(Exec(s, labels), Exec(s', labels))
  {
    assert s.history != [] && s'.history != [];
    hide Alike, Do;
    if labels != [] {
      AlikeRun(s, s', labels[..|labels| - 1]);
      AlikeStep(Exec(s, labels[..|labels| - 1]), Exec(s', labels[..|labels| - 1]), labels[|labels| - 1]);
    }
  }

  // ---- a commit in between ------------------------------------------------------------

  /** The label during which the clock passes `c`. */
  lemma {:induction false} Crossing(config: Config, labels: seq<Label>, c: real) returns (m: nat)
    requires 0.0 <= c < Exec(Init(config), labels).now
    ensures m < |labels| && labels[m].Tick? && labels[m].dt >= 0.0
    ensures var before := Exec(Init(config), labels[..m]).now; before <= c < before + labels[m].dt
  {
    hide CachedSnapshot, CachedView, StoreSnapshot, StoreReport, FetchNow, Invalidated;
    if labels != [] {
      var n := |labels| - 1;
      if c < Exec(Init(config), labels[..n]).now {
        m := Crossing(config, labels[..n], c);
        assert labels[..n][..m] == labels[..m];
      } else {
        m := n;
      }
    }
  }

  /** The same run with a commit of another process at time `c`. */
  function WithCommit(labels: seq<Label>, m: nat, early: real, late: real): seq<Label>
    requires m < |labels|
  {
    labels[..m] + ([Tick(early), External(""), Tick(late)] + labels[m + 1..])
  }

  lemma SplitTick(s: System, early: real, late: real)
    requires s.history != [] && early >= 0.0 && late >= 0.0
    ensures var s' := Exec(s, [Tick(early), External(""), Tick(late)]);
            && Alike(Exec(s, [Tick(early + late)]), s')
            && s'.history == s.history + [Commit("", s.now + early)]
  {
    ThreeSteps(s, early, late);
    hide Alike, Do, Exec;
    ExecThree(s, Tick(early), External(""), Tick(late));
    OneStep(s, Tick(early + late));
    AlikeSame(Do(s, Tick(early + late)), Do(Do(Do(s, Tick(early)), External("")), Tick(late)));
  }

  lemma ThreeSteps(s: System, early: real, late: real)
    requires s.history != [] && early >= 0.0 && late >= 0.0
    ensures Do(Do(Do(s, Tick(early)), External("")), Tick(late))
            == Do(s, Tick(early + late)).(history := s.history + [Commit("", s.now + early)])
  {
    hide Exec, CachedSnapshot, CachedView, StoreSnapshot, StoreReport;
  }

  lemma AlikeSame(s: System, s': System)
    requires s.history != [] && s'.history != [] && s' == s.(history := s'.history)
    ensures Alike(s, s')
  {
    forall t: nat | t < |s.tasks| ensures AlikeAt(s, s', t) {
    }
  }

  lemma {:induction false} HistoryGrows(s: System, labels: seq<Label>)
    requires s.history != []
    ensures s.history <= Exec(s, labels).history
  {
    hide CachedSnapshot, CachedView, StoreSnapshot, StoreReport, FetchNow, Invalidated;
    if labels != [] {
      HistoryGrows(s, labels[..|labels| - 1]);
    }
  }

  lemma CommitInserted(config: Config, labels: seq<Label>, m: nat, early: real, late: real)
    requires m < |labels| && labels[m] == Tick(early + late) && early >= 0.0 && late >= 0.0
    ensures var s, s' := Exec(Init(config), labels), Exec(Init(config), WithCommit(labels, m, early, late));
            && Alike(s, s')
            && exists k: nat :: k < |s'.history| && s'.history[k].at == Exec(Init(config), labels[..m]).now + early
  {
    hide Alike, Do;
    var front, rest := labels[..m], labels[m + 1..];
    var mid := [Tick(early), External(""), Tick(late)];
    var s0 := Exec(Init(config), front);
    SplitTick(s0, early, late);
    assert labels == front + ([labels[m]] + rest);
    ExecAppend(Init(config), front, [labels[m]] + rest);
    ExecAppend(s0, [labels[m]], rest);
    ExecAppend(Init(config), front, mid + rest);
    ExecAppend(s0, mid, rest);
    AlikeRun(Exec(s0, [labels[m]]), Exec(s0, mid), rest);
    HistoryGrows(Exec(s0, mid), rest);
    var s' := Exec(Exec(s0, mid), rest);
    assert s'.history[|s0.history|] == Commit("", s0.now + early);
  }

  /** The same time, and a served report with the same read times. */
  ghost predicate SameReport(s: System, s': System) {
    var view, view' := CachedView(s.cache, s.now), CachedView(s'.cache, s'.now);
    && s.now == s'.now && view.Some? == view'.Some?
    && (view.Some? ==> |view.value| == |view'.value|
                       && forall i :: 0 <= i < |view.value| ==> view.value[i].at == view'.value[i].at)
  }

  lemma AlikeReports(s: System, s': System)
    requires Alike(s, s')
    ensures SameReport(s, s')
  {
    hide CachedView, CachedSnapshot, AlikeAt;
    AlikeHits(s, s');
    var view, view' := CachedView(s.cache, s.now), CachedView(s'.cache, s'.now);
    if view.Some? {
      assert |BlurAll(view.value)| == |view.value| && |BlurAll(view'.value)| == |view'.value|;
      forall i | 0 <= i < |view.value| ensures view.value[i].at == view'.value[i].at {
        assert BlurAll(view.value)[i] == BlurAll(view'.value)[i];
      }
    }
  }

  /** A report with a part read more than one TTL ago misses, on some run that serves a report
      with the same read times at the same time, a commit older than one TTL. */
  lemma LateReportCanMiss(config: Config, labels: seq<Label>)
    requires !ReadWithinTtl(Exec(Init(config), labels))
    ensures exists labels' ::
              && SameReport(Exec(Init(config), labels), Exec(Init(config), labels'))
              && !WithinTtl(Exec(Init(config), labels'))
  {
    hide Do, Exec, WithinTtl;
    var s := Exec(Init(config), labels);
    var view := CachedView(s.cache, s.now);
    var i :| 0 <= i < |view.value| && view.value[i].at < s.now - CACHE_TTL_S;
    var a := view.value[i].at;
    ReportReach(config, labels);
    assert view.value[i] in view.value;
    var c := (a + s.now - CACHE_TTL_S) / 2.0;
    assert a < c < s.now - CACHE_TTL_S;
    var m := Crossing(config, labels, c);
    var before := Exec(Init(config), labels[..m]).now;
    var early, late := c - before, before + labels[m].dt - c;
    CommitInserted(config, labels, m, early, late);
    var labels' := WithCommit(labels, m, early, late);
    AlikeReports(s, Exec(Init(config), labels'));
    MissesCommit(config, labels', i, c);
  }

  lemma MissesCommit(config: Config, labels: seq<Label>, i: nat, c: real)
    requires var s := Exec(Init(config), labels);
             var view := CachedView(s.cache, s.now);
             && view.Some? && i < |view.value| && view.value[i].at < c < s.now - CACHE_TTL_S
             && exists k: nat :: k < |s.history| && s.history[k].at == c
    ensures !WithinTtl(Exec(Init(config), labels))
  {
    hide Do;
    ReportReach(config, labels);
    var s := Exec(Init(config), labels);
    var p := CachedView(s.cache, s.now).value[i];
    assert p in CachedView(s.cache, s.now).value;
    var k: nat :| k < |s.history| && s.history[k].at == c;
    assert p.version < k;
  }

  /** One TTL bounds a report exactly when none of its parts was read more than one TTL ago. */
  lemma WithinTtlExactlyWhen(config: Config, labels: seq<Label>)
    ensures ReadWithinTtl(Exec(Init(config), labels)) <==>
            forall labels' :: SameReport(Exec(Init(config), labels), Exec(Init(config), labels'))
                              ==> WithinTtl(Exec(Init(config), labels'))
  {
    hide WithinTtl, Exec;
    var s := Exec(Init(config), labels);
    if ReadWithinTtl(s) {
      forall labels' | SameReport(s, Exec(Init(config), labels')) ensures WithinTtl(Exec(Init(config), labels')) {
        SameReads(s, Exec(Init(config), labels'));
        ReportReach(config, labels');
      }
    } else {
      LateReportCanMiss(config, labels);
    }
  }

  lemma SameReads(s: System, s': System)
    requires SameReport(s, s') && ReadWithinTtl(s)
    ensures ReadWithinTtl(s')
  {
    hide CachedView;
    var view, view' := CachedView(s.cache, s.now), CachedView(s'.cache, s'.now);
    if view'.Some? {
      forall p | p in view'.value ensures s'.now - CACHE_TTL_S <= p.at {
        var i :| 0 <= i < |view'.value| && view'.value[i] == p;
        assert view.value[i] in view.value;
      }
    }
  }
}
