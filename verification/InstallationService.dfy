/** The service object of services/installation.py, and that a whole interleaving run on it is a
    run of the machine. */
module InstallationServices {
  import opened Options
  import opened InstallationCache

  /** Each method is one stretch of code between two awaits. */
  class InstallationService {
    var snapshot: Option<(real, Snapshot)>
    var reportView: Option<(real, seq<Snapshot>)>
    var gen: nat

    function State(): Cache
      reads this
    {
      Cache(snapshot, reportView, gen)
    }

    constructor ()
      ensures State() == Cache(None, None, 0)
    {
      snapshot, reportView, gen := None, None, 0;
    }

    /** Whatever the time, nothing is served after this until something is stored under the new
        generation. */
    method Invalidate()
      modifies this
      ensures State() == Invalidated(old(State())) && gen == old(gen) + 1
      ensures forall now :: CachedSnapshot(State(), now).None? && CachedView(State(), now).None?
    {
      gen := gen + 1;
      snapshot := None;
      reportView := None;
    }

    /** _load up to its await: what was stored less than one TTL ago, or the generation to
        remember while reading. */
    method BeginLoad(now: real) returns (hit: Option<Snapshot>, genSeen: nat)
      ensures hit == CachedSnapshot(State(), now) && genSeen == gen
      ensures forall start, snap :: snapshot == Some((start, snap)) ==> (hit == Some(snap) <==> now < start + CACHE_TTL_S)
      ensures hit.Some? ==> snapshot.Some?
    {
      var cached := snapshot;
      if cached.Some? && now - cached.value.0 < CACHE_TTL_S {
        return Some(cached.value.1), gen;
      }
      return None, gen;
    }

    /** _load after its await: a read begun under an older generation changes no later answer;
        otherwise what it read is served until one TTL after it began. */
    method EndLoad(start: real, genSeen: nat, snap: Snapshot)
      modifies this
      ensures State() == StoreSnapshot(old(State()), start, genSeen, snap)
      ensures genSeen != old(gen) ==> unchanged(this)
      ensures genSeen == old(gen) ==>
                forall now :: CachedSnapshot(State(), now) == if now < start + CACHE_TTL_S then Some(snap) else None
      ensures forall now :: CachedView(State(), now) == CachedView(old(State()), now)
    {
      if genSeen == gen {
        snapshot := Some((start, snap));
      }
    }

    /** _cached_view. */
    method ReadCachedView(now: real) returns (view: Option<seq<Snapshot>>)
      ensures view == CachedView(State(), now)
      ensures view.Some? ==> reportView == Some((reportView.value.0, view.value)) && now < reportView.value.0 + CACHE_TTL_S
    {
      var cached := reportView;
      if cached.Some? && now - cached.value.0 < CACHE_TTL_S {
        return Some(cached.value.1);
      }
      return None;
    }

    /** _view once the report is built: as in _load, only under an unchanged generation. */
    method EndView(start: real, genSeen: nat, parts: seq<Snapshot>)
      modifies this
      ensures State() == StoreReport(old(State()), start, genSeen, parts)
      ensures genSeen != old(gen) ==> unchanged(this)
      ensures genSeen == old(gen) ==>
                forall now :: CachedView(State(), now) == if now < start + CACHE_TTL_S then Some(parts) else None
      ensures forall now :: CachedSnapshot(State(), now) == CachedSnapshot(old(State()), now)
    {
      if genSeen == gen {
        reportView := Some((start, parts));
      }
    }
  }

  // ---- whole interleavings on the object ----------------------------------------------

  /** One step of the machine with every cache access made through the object. */
  method Perform(service: InstallationService, s: System, l: Label) returns (s': System)
    requires s.history != [] && service.State() == s.cache && Enabled(s, l)
    modifies service
    ensures s' == Do(s, l) && service.State() == s'.cache
  {
    if l.StartLoad? || l.BuildLoad? {
      var hit, genSeen := service.BeginLoad(s.now);
      if l.StartLoad? {
        s' := s.(tasks := s.tasks + [if hit.Some? then Loaded(s.settled, hit.value)
                                     else Loading(s.settled, Reading(s.now, genSeen))]);
      } else {
        var x := s.tasks[l.t];
        s' := s.(tasks := s.tasks[l.t := if hit.Some? then Building(x.floor, x.start, x.gen, x.parts + [hit.value], None)
                                         else Building(x.floor, x.start, x.gen, x.parts, Some(Reading(s.now, genSeen)))]);
      }
    } else if l.FinishLoad? || l.FinishBuildLoad? {
      s' := EndRead(service, s, l);
    } else if l.StartView? || l.TakeReport? {
      s' := ReadView(service, s, l);
    } else if l.FinishView? {
      var x := s.tasks[l.t];
      service.EndView(x.start, x.gen, x.parts);
      s' := s.(cache := service.State(), reporter := None, tasks := s.tasks[l.t := Reported(x.floor, x.parts)]);
    } else if l.Invalidate? || l.InvalidateWritten? {
      service.Invalidate();
      s' := s.(cache := service.State(), settled := |s.history| - 1);
      if l.InvalidateWritten? {
        s' := s'.(writer := None, tasks := s.tasks[l.t := WriteDone(s.tasks[l.t].version)]);
      }
    } else {
      s' := Do(s, l);
    }
  }

  method EndRead(service: InstallationService, s: System, l: Label) returns (s': System)
    requires s.history != [] && service.State() == s.cache && Enabled(s, l) && (l.FinishLoad? || l.FinishBuildLoad?)
    modifies service
    ensures s' == Do(s, l) && service.State() == s'.cache
  {
    var x := s.tasks[l.t];
    var r := if l.FinishLoad? then x.read else x.inner.value;
    service.EndLoad(r.start, r.gen, r.snap);
    var x' := if l.FinishLoad? then Loaded(x.floor, r.snap) else Building(x.floor, x.start, x.gen, x.parts + [r.snap], None);
    s' := s.(cache := service.State(), tasks := s.tasks[l.t := x']);
  }

  method ReadView(service: InstallationService, s: System, l: Label) returns (s': System)
    requires s.history != [] && service.State() == s.cache && Enabled(s, l) && (l.StartView? || l.TakeReport?)
    ensures s' == Do(s, l) && s'.cache == s.cache
  {
    var view := service.ReadCachedView(s.now);
    if l.StartView? {
      s' := s.(tasks := s.tasks + [if view.Some? then Reported(s.settled, view.value) else ViewWaiting(s.settled)]);
    } else if view.Some? {
      s' := s.(tasks := s.tasks[l.t := Reported(s.tasks[l.t].floor, view.value)]);
    } else {
      var x := Building(s.tasks[l.t].floor, s.now, service.gen, [], None);
      s' := s.(reporter := Some(l.t), tasks := s.tasks[l.t := x]);
    }
  }

  /** Any interleaving carried out on the object is that run of the machine, so every result
      about the machine's runs holds of the object. */
  method Replay(config: Config, labels: seq<Label>) returns (s: System)
    ensures s == Exec(Init(config), labels)
  {
    hide Enabled, Do;
    var service := new InstallationService();
    s := Init(config);
    var i := 0;
    while i < |labels|
      invariant 0 <= i <= |labels| && s.history != [] && service.State() == s.cache
      invariant s == Exec(Init(config), labels[..i])
    {
      ExecNext(config, labels, i);
      if Enabled(s, labels[i]) {
        s := Perform(service, s, labels[i]);
      }
      i := i + 1;
    }
    assert labels[..i] == labels;
  }

  lemma ExecNext(config: Config, labels: seq<Label>, i: nat)
    requires i < |labels|
    ensures var s := Exec(Init(config), labels[..i]);
            Exec(Init(config), labels[..i + 1]) == if Enabled(s, labels[i]) then Do(s, labels[i]) else s
  {
    hide Enabled;
    assert labels[..i + 1] == labels[..i] + [labels[i]];
    ExecSnoc(Init(config), labels[..i], labels[i]);
  }
}
