/** What gets committed, read off the labels of a run (services/installation.py, _write). */
module InstallationHistory {
  import opened Options
  import opened InstallationCache

  predicate Starts(l: Label) {
    l.StartLoad? || l.StartView? || l.StartWrite?
  }

  /** How each coroutine of the run was started, in order. */
  function Started(labels: seq<Label>): seq<Label> {
    if labels == [] then []
    else Started(labels[..|labels| - 1]) + if Starts(labels[|labels| - 1]) then [labels[|labels| - 1]] else []
  }

  /** The time that has passed. */
  function Clock(labels: seq<Label>): real {
    if labels == [] then 0.0
    else
      var last := labels[|labels| - 1];
      Clock(labels[..|labels| - 1]) + if last.Tick? && last.dt >= 0.0 then last.dt else 0.0
  }

  /** The configurations written and when: the first one, and then that of each write that
      committed, here or in another process, as it was asked for. */
  ghost function Committed(config: Config, labels: seq<Label>): seq<Commit> {
    if labels == [] then [Commit(config, 0.0)]
    else
      var front, last := labels[..|labels| - 1], labels[|labels| - 1];
      var before := Committed(config, front);
      if last.External? then before + [Commit(last.config, Clock(front))]
      else if last.CommitWrite? && Enabled(Exec(Init(config), front), last)
              && last.t < |Started(front)| && Started(front)[last.t].StartWrite? then
        before + [Commit(Started(front)[last.t].config, Clock(front))]
      else before
  }

  /** A coroutine is what it was started as; a write that committed is in the history as it was
      asked for. */
  predicate ComesFrom(x: Task, start: Label, history: seq<Commit>) {
    match x
    case Loading(_, _) => start.StartLoad?
    case Loaded(_, _) => start.StartLoad?
    case ViewWaiting(_) => start.StartView?
    case Building(_, _, _, _, _) => start.StartView?
    case Reported(_, _) => start.StartView?
    case WriteWaiting(config) => start == StartWrite(config)
    case Writing(config) => start == StartWrite(config)
    case Written(version) => start.StartWrite? && version < |history| && history[version].config == start.config
    case WriteDone(version) => start.StartWrite? && version < |history| && history[version].config == start.config
    case Cancelled => Starts(start)
  }

  ghost predicate Tells(config: Config, labels: seq<Label>, s: System) {
    && s.now == Clock(labels) && s.history == Committed(config, labels)
    && |s.tasks| == |Started(labels)|
    && forall t: nat :: t < |s.tasks| ==> ComesFrom(s.tasks[t], Started(labels)[t], s.history)
  }

  lemma ExecLast(config: Config, labels: seq<Label>)
    requires labels != []
    ensures Exec(Init(config), labels) == Do(Exec(Init(config), labels[..|labels| - 1]), labels[|labels| - 1])
  {
  }

  /** Where the k-th coroutine comes from does not change. */
  lemma TaskTells(s: System, l: Label, started: seq<Label>, t: nat)
    requires s.history != [] && |s.tasks| == |started| && t < |s.tasks| && Enabled(s, l)
    requires ComesFrom(s.tasks[t], started[t], s.history)
    ensures t < |Do(s, l).tasks| && ComesFrom(Do(s, l).tasks[t], started[t], Do(s, l).history)
  {
    hide CachedSnapshot, CachedView, StoreSnapshot, StoreReport, FetchNow, Invalidated;
  }

  lemma NewTaskTells(s: System, l: Label)
    requires s.history != []
    ensures |Do(s, l).tasks| == |s.tasks| + if Starts(l) then 1 else 0
    ensures Starts(l) ==> ComesFrom(Do(s, l).tasks[|s.tasks|], l, Do(s, l).history)
  {
    hide CachedSnapshot, CachedView, StoreSnapshot, StoreReport, FetchNow, Invalidated;
  }

  function Writes(s: System, l: Label): seq<Commit> {
    if l.CommitWrite? && Enabled(s, l) then [Commit(s.tasks[l.t].config, s.now)] else []
  }

  lemma HistoryTells(s: System, l: Label)
    requires s.history != []
    ensures Do(s, l).now == s.now + if l.Tick? && l.dt >= 0.0 then l.dt else 0.0
    ensures Do(s, l).history == s.history + if l.External? then [Commit(l.config, s.now)] else Writes(s, l)
    ensures !Enabled(s, l) ==> Do(s, l) == s
  {
    hide CachedSnapshot, CachedView, StoreSnapshot, StoreReport, FetchNow, Invalidated;
  }

  /** The history of every run is exactly the writes that committed, as asked for and in order,
      and a write that has returned put its own configuration there. */
  lemma {:induction false} HistoryIsTheWrites(config: Config, labels: seq<Label>)
    ensures Tells(config, labels, Exec(Init(config), labels))
  {
    if labels != [] {
      var front, l := labels[..|labels| - 1], labels[|labels| - 1];
      HistoryIsTheWrites(config, front);
      var s := Exec(Init(config), front);
      ExecLast(config, labels);
      HistoryTells(s, l);
      NewTaskTells(s, l);
      CommitIsWriting(s, l, Started(front));
      hide Do, Enabled, ComesFrom;
      forall t: nat | t < |Do(s, l).tasks|
        ensures ComesFrom(Do(s, l).tasks[t], Started(labels)[t], Do(s, l).history)
      {
        if t < |s.tasks| && Enabled(s, l) {
          TaskTells(s, l, Started(front), t);
        }
      }
    }
  }

  lemma CommitIsWriting(s: System, l: Label, started: seq<Label>)
    requires l.CommitWrite? && Enabled(s, l) ==>
               l.t < |s.tasks| && |s.tasks| == |started| && ComesFrom(s.tasks[l.t], started[l.t], s.history)
    ensures l.CommitWrite? && Enabled(s, l) ==> l.t < |started| && started[l.t] == StartWrite(s.tasks[l.t].config)
  {
  }

  /** A write that has returned: its configuration is the one at its place in the history. */
  lemma ReturnedWriteIsThere(config: Config, labels: seq<Label>, w: nat)
    requires var s := Exec(Init(config), labels); w < |s.tasks| && s.tasks[w].WriteDone?
    ensures var s := Exec(Init(config), labels);
            && w < |Started(labels)| && Started(labels)[w].StartWrite?
            && s.tasks[w].version < |s.history|
            && s.history[s.tasks[w].version].config == Started(labels)[w].config
  {
    hide Started;
    HistoryIsTheWrites(config, labels);
    var s := Exec(Init(config), labels);
    assert ComesFrom(s.tasks[w], Started(labels)[w], s.history);
  }

  // ---- who holds the two locks ------------------------------------------------------

  /** The write lock is held by a write that has taken it and neither returned nor gone; the
      report lock by the one report being built. */
  ghost predicate LocksInUse(s: System) {
    && (s.writer.Some? ==> s.writer.value < |s.tasks|)
    && (s.reporter.Some? ==> s.reporter.value < |s.tasks|)
    && forall t: nat :: t < |s.tasks| ==> LocksAt(s, t)
  }

  ghost predicate LocksAt(s: System, t: nat)
    requires t < |s.tasks|
  {
    && (s.writer == Some(t) <==> s.tasks[t].Writing? || s.tasks[t].Written?)
    && (s.reporter == Some(t) <==> s.tasks[t].Building?)
  }

  lemma LocksStep(s: System, l: Label)
    requires s.history != [] && LocksInUse(s)
    ensures LocksInUse(Do(s, l))
  {
    hide CachedSnapshot, CachedView, StoreSnapshot, StoreReport, FetchNow, Invalidated;
    if Enabled(s, l) {
      forall t: nat | t < |Do(s, l).tasks| ensures LocksAt(Do(s, l), t) {
        LocksStepAt(s, l, t);
      }
    }
  }

  lemma LocksStepAt(s: System, l: Label, t: nat)
    requires s.history != [] && LocksInUse(s) && Enabled(s, l) && t < |Do(s, l).tasks|
    ensures LocksAt(Do(s, l), t)
  {
    hide CachedSnapshot, CachedView, StoreSnapshot, StoreReport, FetchNow, Invalidated;
    forall u: nat | u < |s.tasks|
      ensures s.writer == Some(u) <==> s.tasks[u].Writing? || s.tasks[u].Written?
      ensures s.reporter == Some(u) <==> s.tasks[u].Building?
    {
      assert LocksAt(s, u);
    }
  }

  /** After every run: one write between its lock and its return, one report being built, and
      neither lock is left behind by a coroutine that was cancelled or failed. */
  lemma {:induction false} OneWriterOneReport(config: Config, labels: seq<Label>)
    ensures LocksInUse(Exec(Init(config), labels))
  {
    if labels != [] {
      var front := labels[..|labels| - 1];
      OneWriterOneReport(config, front);
      ExecLast(config, labels);
      hide LocksInUse, Do;
      LocksStep(Exec(Init(config), front), labels[|labels| - 1]);
    }
  }
}
