/** The two-level cache of services/installation.py: a snapshot of the installation row and
    a capability report built from several snapshots, both dropped by invalidate(). */
module InstallationCache {
  import opened Options

  // The stored configuration, as its canonical text.
  type Config = string

  const CACHE_TTL_S := 5.0

  /** A snapshot and, for the proofs, the number of the commit it was read from and when. */
  datatype Snapshot = Snapshot(config: Config, version: nat, at: real)

  /** The cache fields of one InstallationService. A cached report is kept as the snapshots
      it was derived from. */
  datatype Cache = Cache(snapshot: Option<(real, Snapshot)>, report: Option<(real, seq<Snapshot>)>, gen: nat)

  function CachedSnapshot(c: Cache, now: real): Option<Snapshot> {
    if c.snapshot.Some? && now - c.snapshot.value.0 < CACHE_TTL_S then Some(c.snapshot.value.1) else None
  }

  function CachedView(c: Cache, now: real): Option<seq<Snapshot>> {
    if c.report.Some? && now - c.report.value.0 < CACHE_TTL_S then Some(c.report.value.1) else None
  }

  function StoreSnapshot(c: Cache, start: real, gen: nat, snap: Snapshot): Cache {
    if gen == c.gen then c.(snapshot := Some((start, snap))) else c
  }

  function StoreReport(c: Cache, start: real, gen: nat, parts: seq<Snapshot>): Cache {
    if gen == c.gen then c.(report := Some((start, parts))) else c
  }

  function Invalidated(c: Cache): Cache {
    Cache(None, None, c.gen + 1)
  }

  // ---- interleaved coroutines ---------------------------------------------------

  datatype Commit = Commit(config: Config, at: real)

  /** A database read in flight: asked for at `start` under generation `gen`, then fetched. */
  datatype Read = Reading(start: real, gen: nat) | Fetched(start: real, gen: nat, snap: Snapshot)

  /** `floor` is the last settled commit when the reader started. */
  datatype Task =
    | Loading(floor: nat, read: Read)
    | Loaded(floor: nat, snap: Snapshot)
    | ViewWaiting(floor: nat)
    | Building(floor: nat, start: real, gen: nat, parts: seq<Snapshot>, inner: Option<Read>)
    | Reported(floor: nat, parts: seq<Snapshot>)
    | WriteWaiting(config: Config)
    | Writing(config: Config)
    | Written(version: nat)        // committed, not yet invalidated
    | WriteDone(version: nat)
    | Cancelled

  /** `history` is every committed row in order; `writer` and `reporter` are who holds the
      two asyncio locks; `settled` is the newest commit at the last invalidate(). */
  datatype System = System(
    history: seq<Commit>,
    now: real,
    cache: Cache,
    writer: Option<nat>,
    reporter: Option<nat>,
    tasks: seq<Task>,
    settled: nat)

  datatype Label =
    | Tick(dt: real)
    | StartLoad
    | StartView
    | StartWrite(config: Config)
    | Fetch(t: nat)              // the session reads the committed row
    | FinishLoad(t: nat)
    | TakeReport(t: nat)
    | BuildLoad(t: nat)          // one of the loads a report is built from begins
    | FinishBuildLoad(t: nat)
    | FinishView(t: nat)
    | TakeWriter(t: nat)
    | CommitWrite(t: nat)
    | AbortWrite(t: nat)
    | InvalidateWritten(t: nat)
    | Invalidate                 // _changed(), an install, an OS permission grant
    | CancelReader(t: nat)
    | AbandonWrite(t: nat)       // cancelled between commit and invalidate
    | External(config: Config)   // another process commits

  function Init(config: Config): System {
    System([Commit(config, 0.0)], 0.0, Cache(None, None, 0), None, None, [], 0)
  }

  function Current(s: System): Snapshot
    requires s.history != []
  {
    Snapshot(s.history[|s.history| - 1].config, |s.history| - 1, s.now)
  }

  predicate Enabled(s: System, l: Label) {
    match l
    case Tick(dt) => dt >= 0.0
    case StartLoad => true
    case StartView => true
    case StartWrite(_) => true
    case Invalidate => true
    case External(_) => true
    case Fetch(t) =>
      t < |s.tasks| && ((s.tasks[t].Loading? && s.tasks[t].read.Reading?)
                        || (s.tasks[t].Building? && s.tasks[t].inner.Some? && s.tasks[t].inner.value.Reading?))
    case FinishLoad(t) => t < |s.tasks| && s.tasks[t].Loading? && s.tasks[t].read.Fetched?
    case TakeReport(t) => t < |s.tasks| && s.tasks[t].ViewWaiting? && s.reporter == None
    case BuildLoad(t) => t < |s.tasks| && s.tasks[t].Building? && s.tasks[t].inner == None
    case FinishBuildLoad(t) =>
      t < |s.tasks| && s.tasks[t].Building? && s.tasks[t].inner.Some? && s.tasks[t].inner.value.Fetched?
    case FinishView(t) =>
      t < |s.tasks| && s.tasks[t].Building? && s.tasks[t].inner == None && s.tasks[t].parts != []
    case TakeWriter(t) => t < |s.tasks| && s.tasks[t].WriteWaiting? && s.writer == None
    case CommitWrite(t) => t < |s.tasks| && s.tasks[t].Writing?
    case AbortWrite(t) => t < |s.tasks| && s.tasks[t].Writing?
    case InvalidateWritten(t) => t < |s.tasks| && s.tasks[t].Written?
    case AbandonWrite(t) => t < |s.tasks| && s.tasks[t].Written?
    case CancelReader(t) =>
      t < |s.tasks| && (s.tasks[t].Loading? || s.tasks[t].ViewWaiting? || s.tasks[t].Building?)
  }

  function FetchNow(s: System, r: Read): Read
    requires s.history != []
  {
    Fetched(r.start, r.gen, Current(s))
  }

  function Drop(s: System): System
    requires s.history != []
  {
    s.(cache := Invalidated(s.cache), settled := |s.history| - 1)
  }

  function Do(s: System, l: Label): System
    requires s.history != []
    ensures Do(s, l).history != []
  {
    if !Enabled(s, l) then s
    else match l
      case Tick(dt) => s.(now := s.now + dt)
      case StartLoad =>
        var hit := CachedSnapshot(s.cache, s.now);
        s.(tasks := s.tasks + [if hit.Some? then Loaded(s.settled, hit.value)
                               else Loading(s.settled, Reading(s.now, s.cache.gen))])
      case StartView =>
        var hit := CachedView(s.cache, s.now);
        s.(tasks := s.tasks + [if hit.Some? then Reported(s.settled, hit.value) else ViewWaiting(s.settled)])
      case StartWrite(config) => s.(tasks := s.tasks + [WriteWaiting(config)])
      case Fetch(t) =>
        var x := s.tasks[t];
        s.(tasks := s.tasks[t := if x.Loading? then Loading(x.floor, FetchNow(s, x.read))
                                 else Building(x.floor, x.start, x.gen, x.parts, Some(FetchNow(s, x.inner.value)))])
      case FinishLoad(t) =>
        var r := s.tasks[t].read;
        s.(cache := StoreSnapshot(s.cache, r.start, r.gen, r.snap),
           tasks := s.tasks[t := Loaded(s.tasks[t].floor, r.snap)])
      case TakeReport(t) =>
        var hit := CachedView(s.cache, s.now);
        if hit.Some? then s.(tasks := s.tasks[t := Reported(s.tasks[t].floor, hit.value)])
        else s.(reporter := Some(t), tasks := s.tasks[t := Building(s.tasks[t].floor, s.now, s.cache.gen, [], None)])
      case BuildLoad(t) =>
        var x := s.tasks[t];
        var hit := CachedSnapshot(s.cache, s.now);
        s.(tasks := s.tasks[t := if hit.Some? then Building(x.floor, x.start, x.gen, x.parts + [hit.value], None)
                                 else Building(x.floor, x.start, x.gen, x.parts, Some(Reading(s.now, s.cache.gen)))])
      case FinishBuildLoad(t) =>
        var x := s.tasks[t];
        var r := x.inner.value;
        s.(cache := StoreSnapshot(s.cache, r.start, r.gen, r.snap),
           tasks := s.tasks[t := Building(x.floor, x.start, x.gen, x.parts + [r.snap], None)])
      case FinishView(t) =>
        var x := s.tasks[t];
        s.(cache := StoreReport(s.cache, x.start, x.gen, x.parts), reporter := None,
           tasks := s.tasks[t := Reported(x.floor, x.parts)])
      case TakeWriter(t) => s.(writer := Some(t), tasks := s.tasks[t := Writing(s.tasks[t].config)])
      case CommitWrite(t) =>
        s.(history := s.history + [Commit(s.tasks[t].config, s.now)], tasks := s.tasks[t := Written(|s.history|)])
      case AbortWrite(t) => s.(writer := None, tasks := s.tasks[t := Cancelled])
      case InvalidateWritten(t) =>
        Drop(s).(writer := None, tasks := s.tasks[t := WriteDone(s.tasks[t].version)])
      case Invalidate => Drop(s)
      case CancelReader(t) =>
        s.(reporter := if s.tasks[t].Building? then None else s.reporter, tasks := s.tasks[t := Cancelled])
      case AbandonWrite(t) => s.(writer := None, tasks := s.tasks[t := Cancelled])
      case External(config) => s.(history := s.history + [Commit(config, s.now)])
  }

  function Exec(s: System, labels: seq<Label>): (r: System)
    requires s.history != []
    ensures r.history != []
  {
    if labels == [] then s else Do(Exec(s, labels[..|labels| - 1]), labels[|labels| - 1])
  }

  lemma ExecSnoc(s: System, labels: seq<Label>, l: Label)
    requires s.history != []
    ensures Exec(s, labels + [l]) == Do(Exec(s, labels), l)
  {
    assert (labels + [l])[..|labels|] == labels;
  }

  lemma OneStep(s: System, l: Label)
    requires s.history != []
    ensures Exec(s, [l]) == Do(s, l)
  {
    ExecSnoc(s, [], l);
    assert [] + [l] == [l];
  }

  lemma ExecThree(s: System, a: Label, b: Label, c: Label)
    requires s.history != []
    ensures Exec(s, [a, b, c]) == Do(Do(Do(s, a), b), c)
  {
    ExecSnoc(s, [], a);
    ExecSnoc(s, [a], b);
    ExecSnoc(s, [a, b], c);
    assert [] + [a] == [a] && [a] + [b] == [a, b] && [a, b] + [c] == [a, b, c];
  }

  lemma {:induction false} ExecAppend(s: System, a: seq<Label>, b: seq<Label>)
    requires s.history != []
    ensures Exec(s, a + b) == Exec(Exec(s, a), b)
    decreases |b|
  {
    if b == [] {
      assert a + b == a;
    } else {
      assert (a + b)[..|a + b| - 1] == a + b[..|b| - 1];
      ExecAppend(s, a, b[..|b| - 1]);
    }
  }

  // ---- the invariant ------------------------------------------------------------

  /** The snapshot is the row some commit wrote, the newest one when it was read. */
  ghost predicate Genuine(s: System, snap: Snapshot) {
    && snap.version < |s.history| && snap.config == s.history[snap.version].config
    && 0.0 <= snap.at <= s.now
    && (forall k :: 0 <= k <= snap.version ==> s.history[k].at <= snap.at)
    && (forall k :: snap.version < k < |s.history| ==> snap.at <= s.history[k].at)
  }

  /** The snapshot is the committed row. */
  ghost predicate IsCurrent(s: System, snap: Snapshot)
    requires s.history != []
  {
    snap.version == |s.history| - 1 && snap.config == s.history[snap.version].config
  }

  /** Every commit made strictly before `time` is included. */
  ghost predicate IncludesBefore(s: System, snap: Snapshot, time: real) {
    forall k :: 0 <= k < |s.history| && s.history[k].at < time ==> k <= snap.version
  }

  /** Every commit made at or before `time` is included. */
  ghost predicate IncludesUpTo(s: System, snap: Snapshot, time: real) {
    forall k :: 0 <= k < |s.history| && s.history[k].at <= time ==> k <= snap.version
  }

  /** What is known of a read that reader floor `floor` made. Under an unchanged generation
      nothing has settled since it began. */
  ghost predicate ReadInv(s: System, floor: nat, r: Read) {
    && r.start <= s.now && r.gen <= s.cache.gen && floor <= s.settled
    && (r.Fetched? ==>
          && Genuine(s, r.snap) && floor <= r.snap.version
          && IncludesBefore(s, r.snap, r.start) && r.start <= r.snap.at
          && (r.gen == s.cache.gen ==> s.settled <= r.snap.version))
  }

  ghost predicate PartInv(s: System, floor: nat, start: real, gen: nat, p: Snapshot) {
    && Genuine(s, p) && floor <= p.version
    && IncludesUpTo(s, p, start - CACHE_TTL_S) && start - CACHE_TTL_S < p.at
    && (gen == s.cache.gen ==> s.settled <= p.version)
  }

  ghost predicate TaskInv(s: System, x: Task) {
    match x
    case Loading(floor, r) => ReadInv(s, floor, r)
    case Loaded(floor, snap) => Genuine(s, snap) && floor <= snap.version
    case ViewWaiting(floor) => floor <= s.settled
    case Building(floor, start, gen, parts, inner) =>
      && floor <= s.settled && start <= s.now && gen <= s.cache.gen
      && (forall p :: p in parts ==> PartInv(s, floor, start, gen, p))
      && (inner.Some? ==> ReadInv(s, floor, inner.value) && start <= inner.value.start && gen <= inner.value.gen)
    case Reported(floor, parts) => forall p :: p in parts ==> Genuine(s, p) && floor <= p.version
    case Written(version) => version < |s.history|
    case WriteDone(version) => version <= s.settled
    case WriteWaiting(_) => true
    case Writing(_) => true
    case Cancelled => true
  }

  ghost predicate CacheInv(s: System) {
    && (s.cache.snapshot.Some? ==>
          var (at, snap) := s.cache.snapshot.value;
          at <= s.now && at <= snap.at && Genuine(s, snap) && s.settled <= snap.version && IncludesBefore(s, snap, at))
    && (s.cache.report.Some? ==>
          var (at, parts) := s.cache.report.value;
          at <= s.now && parts != [] && forall p :: p in parts ==> PartInv(s, s.settled, at, s.cache.gen, p))
  }

  ghost predicate Inv(s: System) {
    && s.history != [] && s.settled < |s.history| && 0.0 <= s.now
    && (forall k :: 0 <= k < |s.history| ==> s.history[k].at <= s.now)
    && CacheInv(s)
    && (forall t :: 0 <= t < |s.tasks| ==> TaskInv(s, s.tasks[t]))
  }

  /** Time and commits only move on, and nothing settles without a new generation. */
  ghost predicate Later(s: System, s': System) {
    && s.now <= s'.now && s.history <= s'.history && s.settled <= s'.settled
    && s.cache.gen <= s'.cache.gen
    && (s.cache.gen == s'.cache.gen ==> s.settled == s'.settled)
    && (forall k :: |s.history| <= k < |s'.history| ==> s.now <= s'.history[k].at)
  }

  lemma StepIsLater(s: System, l: Label)
    requires Inv(s)
    ensures Later(s, Do(s, l))
    ensures forall k :: 0 <= k < |Do(s, l).history| ==> Do(s, l).history[k].at <= Do(s, l).now
    ensures Do(s, l).settled < |Do(s, l).history|
  {
  }

  lemma ReadStays(s: System, s': System, floor: nat, r: Read)
    requires Later(s, s') && ReadInv(s, floor, r)
    ensures ReadInv(s', floor, r)
  {
  }

  lemma PartStays(s: System, s': System, floor: nat, start: real, gen: nat, p: Snapshot)
    requires Later(s, s') && PartInv(s, floor, start, gen, p) && start <= s.now && gen <= s.cache.gen
    ensures PartInv(s', floor, start, gen, p)
  {
  }

  /** What held of a task keeps holding while others move. */
  lemma TaskStays(s: System, s': System, x: Task)
    requires Later(s, s') && TaskInv(s, x)
    ensures TaskInv(s', x)
  {
    match x
    case Loading(floor, r) => ReadStays(s, s', floor, r);
    case Building(floor, start, gen, parts, inner) =>
      if inner.Some? { ReadStays(s, s', floor, inner.value); }
      forall p | p in parts ensures PartInv(s', floor, start, gen, p) { PartStays(s, s', floor, start, gen, p); }
    case _ =>
  }

  /** A snapshot served from the cache: everything up to one TTL ago is in it. */
  lemma HitIsRecent(s: System, snap: Snapshot)
    requires Inv(s) && CachedSnapshot(s.cache, s.now) == Some(snap)
    ensures Genuine(s, snap) && s.settled <= snap.version && IncludesUpTo(s, snap, s.now - CACHE_TTL_S)
    ensures s.now - CACHE_TTL_S < snap.at
  {
  }

  /** The row read now includes every commit so far. */
  lemma CurrentIsAll(s: System, time: real)
    requires Inv(s)
    ensures Genuine(s, Current(s)) && s.settled <= Current(s).version
    ensures IncludesBefore(s, Current(s), time) && IncludesUpTo(s, Current(s), time)
  {
  }

  /** The coroutine a step creates or moves satisfies its invariant afterwards. */
  lemma MovedTask(s: System, l: Label, t: nat)
    requires Inv(s) && Enabled(s, l) && t < |Do(s, l).tasks|
    requires t >= |s.tasks| || Do(s, l).tasks[t] != s.tasks[t]
    ensures TaskInv(Do(s, l), Do(s, l).tasks[t])
  {
    match l
    case StartLoad => StartedTask(s, l);
    case StartView => StartedTask(s, l);
    case StartWrite(_) => StartedTask(s, l);
    case Fetch(a) => FetchedTask(s, a);
    case BuildLoad(a) => PartFromCache(s, a);
    case FinishBuildLoad(a) => PartFromRead(s, a);
    case _ => FinishedTask(s, l, t);
  }

  lemma StartedTask(s: System, l: Label)
    requires Inv(s) && (l.StartLoad? || l.StartView? || l.StartWrite?)
    ensures TaskInv(Do(s, l), Do(s, l).tasks[|s.tasks|])
  {
    hide Exec, FetchNow, StoreSnapshot, StoreReport;
    StepIsLater(s, l);
  }

  lemma FinishedTask(s: System, l: Label, t: nat)
    requires Inv(s) && Enabled(s, l) && t < |s.tasks| && Do(s, l).tasks[t] != s.tasks[t]
    requires !l.Fetch? && !l.BuildLoad? && !l.FinishBuildLoad?
    ensures TaskInv(Do(s, l), Do(s, l).tasks[t])
  {
    hide CachedSnapshot, FetchNow, Exec;
    StepIsLater(s, l);
    assert TaskInv(s, s.tasks[t]);
  }

  lemma FetchedTask(s: System, t: nat)
    requires Inv(s) && Enabled(s, Fetch(t))
    ensures TaskInv(Do(s, Fetch(t)), Do(s, Fetch(t)).tasks[t])
  {
    var s' := Do(s, Fetch(t));
    var x := s.tasks[t];
    assert TaskInv(s, x);
    var r := if x.Loading? then x.read else x.inner.value;
    CurrentIsAll(s, r.start);
    assert ReadInv(s', x.floor, FetchNow(s, r));
    if x.Building? {
      forall p | p in x.parts ensures PartInv(s', x.floor, x.start, x.gen, p) {
        PartStays(s, s', x.floor, x.start, x.gen, p);
      }
    }
  }

  lemma PartFromCache(s: System, t: nat)
    requires Inv(s) && Enabled(s, BuildLoad(t))
    ensures TaskInv(Do(s, BuildLoad(t)), Do(s, BuildLoad(t)).tasks[t])
  {
    var s' := Do(s, BuildLoad(t));
    var x := s.tasks[t];
    assert TaskInv(s, x);
    forall p | p in x.parts ensures PartInv(s', x.floor, x.start, x.gen, p) {
      PartStays(s, s', x.floor, x.start, x.gen, p);
    }
    var hit := CachedSnapshot(s.cache, s.now);
    if hit.Some? {
      HitIsRecent(s, hit.value);
      assert PartInv(s', x.floor, x.start, x.gen, hit.value);
    }
  }

  lemma PartFromRead(s: System, t: nat)
    requires Inv(s) && Enabled(s, FinishBuildLoad(t))
    ensures TaskInv(Do(s, FinishBuildLoad(t)), Do(s, FinishBuildLoad(t)).tasks[t])
  {
    var s' := Do(s, FinishBuildLoad(t));
    var x := s.tasks[t];
    assert TaskInv(s, x);
    forall p | p in x.parts ensures PartInv(s', x.floor, x.start, x.gen, p) {
      PartStays(s, s', x.floor, x.start, x.gen, p);
    }
    assert PartInv(s', x.floor, x.start, x.gen, x.inner.value.snap);
  }

  lemma SnapshotStays(s: System, s': System, p: Snapshot, time: real)
    requires Later(s, s') && Genuine(s, p) && IncludesBefore(s, p, time) && time <= s.now
    ensures Genuine(s', p) && IncludesBefore(s', p, time)
  {
  }

  lemma StepKeepsCache(s: System, l: Label)
    requires Inv(s) && Enabled(s, l)
    ensures CacheInv(Do(s, l))
  {
    hide CachedSnapshot, CachedView, FetchNow, Genuine, IncludesBefore, IncludesUpTo;
    var s' := Do(s, l);
    StepIsLater(s, l);
    if l.FinishLoad? || l.FinishBuildLoad? || l.FinishView? {
      assert TaskInv(s, s.tasks[l.t]);
    }
    if s'.cache.snapshot.Some? {
      SnapshotStays(s, s', s'.cache.snapshot.value.1, s'.cache.snapshot.value.0);
    }
    if s'.cache.report.Some? {
      var (at, parts) := s'.cache.report.value;
      forall p | p in parts ensures PartInv(s', s'.settled, at, s'.cache.gen, p) {
        PartStays(s, s', s.settled, at, s.cache.gen, p);
      }
    }
  }

  lemma StepKeepsInv(s: System, l: Label)
    requires Inv(s)
    ensures Inv(Do(s, l))
  {
    if Enabled(s, l) {
      var s' := Do(s, l);
      StepIsLater(s, l);
      StepKeepsCache(s, l);
      forall t | 0 <= t < |s'.tasks| ensures TaskInv(s', s'.tasks[t]) {
        if t < |s.tasks| && s'.tasks[t] == s.tasks[t] {
          TaskStays(s, s', s.tasks[t]);
        } else {
          MovedTask(s, l, t);
        }
      }
    }
  }

  lemma {:induction false} RunKeepsInv(s: System, labels: seq<Label>)
    requires Inv(s)
    ensures Inv(Exec(s, labels))
  {
    if labels != [] {
      RunKeepsInv(s, labels[..|labels| - 1]);
      StepKeepsInv(Exec(s, labels[..|labels| - 1]), labels[|labels| - 1]);
    }
  }

  lemma InitInv(config: Config)
    ensures Inv(Init(config))
  {
  }

  // ---- coherence ----------------------------------------------------------------

  /** Only this process writes, and every writer that commits goes on to invalidate. */
  ghost predicate InProcess(labels: seq<Label>) {
    forall l :: l in labels ==> !l.External? && !l.AbandonWrite?
  }

  /** Writers between commit and invalidate: at most the one holding the lock. */
  ghost predicate WriterInv(s: System) {
    && (forall t :: 0 <= t < |s.tasks| && (s.tasks[t].Writing? || s.tasks[t].Written?) ==> s.writer == Some(t))
    && (s.settled == |s.history| - 1 || !NoWriteBetween(s))
  }

  lemma StepKeepsWriter(s: System, l: Label)
    requires Inv(s) && WriterInv(s) && Enabled(s, l) && !l.External? && !l.AbandonWrite?
    ensures WriterInv(Do(s, l))
  {
    hide CachedSnapshot, CachedView, StoreSnapshot, StoreReport, FetchNow, TaskInv, CacheInv;
    var s' := Do(s, l);
    if s.settled != |s.history| - 1 {
      var t :| 0 <= t < |s.tasks| && s.tasks[t].Written?;
      assert s'.tasks[t].Written? || l == InvalidateWritten(t);
    }
    if l.CommitWrite? {
      assert s'.tasks[l.t].Written?;
    }
  }

  lemma {:induction false} RunKeepsWriter(config: Config, labels: seq<Label>)
    requires InProcess(labels)
    ensures WriterInv(Exec(Init(config), labels))
  {
    if labels != [] {
      var n := |labels| - 1;
      RunKeepsWriter(config, labels[..n]);
      InitInv(config);
      RunKeepsInv(Init(config), labels[..n]);
      var s := Exec(Init(config), labels[..n]);
      if Enabled(s, labels[n]) {
        StepKeepsWriter(s, labels[n]);
      }
    }
  }

  /** Coherence: after any interleaving of readers and writers of one process, while no
      writer is between its commit and its invalidate, a cached snapshot is the committed
      row and every snapshot a cached report was derived from is that row too. */
  lemma Coherence(config: Config, labels: seq<Label>)
    requires InProcess(labels)
    requires NoWriteBetween(Exec(Init(config), labels))
    ensures var s := Exec(Init(config), labels);
            && (s.cache.snapshot.Some? ==> IsCurrent(s, s.cache.snapshot.value.1))
            && (s.cache.report.Some? ==> s.cache.report.value.1 != [])
            && (s.cache.report.Some? ==> forall p :: p in s.cache.report.value.1 ==> IsCurrent(s, p))
  {
    InitInv(config);
    RunKeepsInv(Init(config), labels);
    RunKeepsWriter(config, labels);
    var s := Exec(Init(config), labels);
    assert NoWriteBetween(s) && WriterInv(s);
    NewestIsCurrent(s);
  }

  /** No writer is between its commit and its invalidate. */
  ghost predicate NoWriteBetween(s: System) {
    forall t :: 0 <= t < |s.tasks| ==> !s.tasks[t].Written?
  }

  /** With nothing committed since the last invalidate, a snapshot no older than the settled
      commit is the current row. */
  lemma NewestIsCurrent(s: System)
    requires Inv(s) && WriterInv(s) && NoWriteBetween(s)
    ensures forall p :: Genuine(s, p) && s.settled <= p.version ==> IsCurrent(s, p)
  {
  }

  // ---- reads see returned writes ------------------------------------------------

  /** What a reader has got so far. */
  function Results(x: Task): seq<Snapshot> {
    match x
    case Loaded(_, snap) => [snap]
    case Reported(_, parts) => parts
    case Building(_, _, _, parts, _) => parts
    case _ => []
  }

  predicate IsReader(x: Task) {
    x.Loading? || x.Loaded? || x.ViewWaiting? || x.Building? || x.Reported?
  }

  /** Task `r` reads from `floor` on, or was cancelled. */
  ghost predicate ReadsFrom(s: System, r: nat, floor: nat) {
    r < |s.tasks| && (s.tasks[r].Cancelled? || (IsReader(s.tasks[r]) && s.tasks[r].floor == floor))
  }

  lemma FloorStep(s: System, l: Label, r: nat, floor: nat)
    requires s.history != [] && ReadsFrom(s, r, floor)
    ensures ReadsFrom(Do(s, l), r, floor)
  {
    hide CachedSnapshot, CachedView, StoreSnapshot, StoreReport, FetchNow, Invalidated;
  }

  lemma {:induction false} FloorIsKept(s: System, labels: seq<Label>, r: nat)
    requires s.history != [] && r < |s.tasks| && IsReader(s.tasks[r])
    ensures ReadsFrom(Exec(s, labels), r, s.tasks[r].floor)
  {
    if labels != [] {
      hide Do, ReadsFrom;
      FloorIsKept(s, labels[..|labels| - 1], r);
      FloorStep(Exec(s, labels[..|labels| - 1]), labels[|labels| - 1], r, s.tasks[r].floor);
    }
  }

  /** A read or report that starts after a write has returned is made of that write or later
      ones, whatever else runs before or meanwhile, other processes included. */
  lemma ReadsSeeReturnedWrites(config: Config, before: seq<Label>, w: nat, start: Label, after: seq<Label>)
    requires start.StartLoad? || start.StartView?
    requires var s := Exec(Init(config), before); w < |s.tasks| && s.tasks[w].WriteDone?
    ensures var s := Exec(Init(config), before);
            var r := |s.tasks|;
            var s' := Exec(Do(s, start), after);
            && r < |s'.tasks|
            && forall p :: p in Results(s'.tasks[r]) ==> s.tasks[w].version <= p.version && Genuine(s', p)
  {
    InitInv(config);
    RunKeepsInv(Init(config), before);
    var s := Exec(Init(config), before);
    assert TaskInv(s, s.tasks[w]);
    StepKeepsInv(s, start);
    FloorIsKept(Do(s, start), after, |s.tasks|);
    RunKeepsInv(Do(s, start), after);
    var s' := Exec(Do(s, start), after);
    assert TaskInv(s', s'.tasks[|s.tasks|]);
  }
}
