/** The per-account lockout of services/auth.py: a lazily purged map of counters and
    deadlines, checked against a definition over the whole history. */
module AccountLockouts {
  import opened Options
  import opened Text
  import opened TextMeaning

  // ---- the definition over the history ------------------------------------------

  /** What happened, oldest first; queries leave no trace. */
  datatype Event = Failure(key: string, at: real) | Reset(key: string)

  /** The failures of an account since its last reset. */
  function FailTimes(history: seq<Event>, key: string): seq<real> {
    if history == [] then []
    else
      var front, last := FailTimes(history[..|history| - 1], key), history[|history| - 1];
      if last.key != key then front else if last.Failure? then front + [last.at] else []
  }

  /** The length of the latest run of failures with every gap below `decay`. */
  function Streak(times: seq<real>, decay: real): nat {
    var n := |times|;
    if n <= 1 then n
    else if times[n - 1] - times[n - 2] < decay then 1 + Streak(times[..n - 1], decay)
    else 1
  }

  /** Locked: the run of failures less than twice the duration apart reached the threshold,
      and its last failure is less than one duration old. */
  predicate LockedAt(times: seq<real>, threshold: int, duration: real, now: real) {
    times != [] && Streak(times, 2.0 * duration) >= threshold && now - times[|times| - 1] < duration
  }

  function Remaining(times: seq<real>, threshold: int, duration: real, now: real): int {
    if LockedAt(times, threshold, duration, now) then (times[|times| - 1] + duration - now).Floor + 1 else 0
  }

  // ---- the entry of one account -------------------------------------------------

  datatype AttemptState = AttemptState(failures: nat, lockedUntil: real, expiresAt: real)

  const DECAY_FACTOR := 2.0

  function Last(times: seq<real>): real
    requires times != []
  {
    times[|times| - 1]
  }

  function Expiry(times: seq<real>, threshold: int, duration: real): real
    requires times != []
  {
    if Streak(times, DECAY_FACTOR * duration) >= threshold && duration < 0.0 then Last(times) + duration
    else Last(times) + DECAY_FACTOR * duration
  }

  /** An entry says what the history says; no entry means nothing since the last reset, or
      nothing recent enough to matter at `clock` or later. */
  ghost predicate EntryOk(entry: Option<AttemptState>, times: seq<real>, threshold: int, duration: real, clock: real) {
    && (times != [] ==> Last(times) <= clock)
    && (entry.None? && times != [] ==> Expiry(times, threshold, duration) <= clock)
    && (entry.Some? ==>
          && times != []
          && entry.value.failures == Streak(times, DECAY_FACTOR * duration)
          && entry.value.lockedUntil == (if entry.value.failures >= threshold then Last(times) + duration else 0.0)
          && entry.value.expiresAt == Expiry(times, threshold, duration))
  }

  /** What record_failure makes of an entry. */
  function Counted(entry: Option<AttemptState>, threshold: int, duration: real, now: real): AttemptState {
    var failures := if entry.Some? then entry.value.failures + 1 else 1;
    var decayed := now + DECAY_FACTOR * duration;
    if failures >= threshold then
      AttemptState(failures, now + duration, if decayed >= now + duration then decayed else now + duration)
    else
      AttemptState(failures, if entry.Some? then entry.value.lockedUntil else 0.0, decayed)
  }

  lemma CountedOk(entry: Option<AttemptState>, times: seq<real>, threshold: int, duration: real, clock: real, now: real)
    requires EntryOk(entry, times, threshold, duration, clock) && clock <= now
    requires entry.Some? ==> entry.value.expiresAt > now
    ensures EntryOk(Some(Counted(entry, threshold, duration, now)), times + [now], threshold, duration, now)
  {
    var more := times + [now];
    assert more[..|more| - 1] == times;
    assert Last(more) == now;
  }

  /** A purge at `now` drops only entries that answer nothing any more. */
  lemma PurgedOk(entry: Option<AttemptState>, times: seq<real>, threshold: int, duration: real, clock: real, now: real)
    requires EntryOk(entry, times, threshold, duration, clock) && 0.0 <= clock <= now
    ensures var kept := if entry.Some? && entry.value.expiresAt > now then entry else None;
            && EntryOk(kept, times, threshold, duration, now)
            && (kept.None? ==> !LockedAt(times, threshold, duration, now))
            && (kept.Some? ==> (LockedAt(times, threshold, duration, now) <==> kept.value.lockedUntil > now))
            && (kept.Some? && kept.value.lockedUntil > now ==> kept.value.lockedUntil == Last(times) + duration)
  {
  }

  function Look(states: map<string, AttemptState>, key: string): Option<AttemptState> {
    if key in states then Some(states[key]) else None
  }

  ghost predicate TimesInOrder(history: seq<Event>) {
    forall i, j :: 0 <= i < j < |history| && history[i].Failure? && history[j].Failure? ==>
      history[i].at <= history[j].at
  }

  /** The clock never goes back, so failures are recorded in time order. */
  ghost predicate Timely(history: seq<Event>, clock: real) {
    TimesInOrder(history) && forall e :: e in history && e.Failure? ==> e.at <= clock
  }

  /** The map says what the history says, account by account. */
  ghost predicate StatesOk(states: map<string, AttemptState>, history: seq<Event>, threshold: int, duration: real, clock: real) {
    forall key :: KeyOk(states, history, threshold, duration, clock, key)
  }

  ghost predicate KeyOk(states: map<string, AttemptState>, history: seq<Event>, threshold: int, duration: real,
                        clock: real, key: string)
  {
    EntryOk(Look(states, key), FailTimes(history, key), threshold, duration, clock)
  }

  function Unexpired(states: map<string, AttemptState>, now: real): map<string, AttemptState> {
    map k | k in states && states[k].expiresAt > now :: states[k]
  }

  lemma PurgeKeeps(states: map<string, AttemptState>, history: seq<Event>, threshold: int, duration: real, clock: real, now: real)
    requires StatesOk(states, history, threshold, duration, clock) && 0.0 <= clock <= now
    ensures StatesOk(Unexpired(states, now), history, threshold, duration, now)
    ensures forall k :: k in states && k !in Unexpired(states, now) ==>
              !LockedAt(FailTimes(history, k), threshold, duration, now)
  {
    forall k
      ensures KeyOk(Unexpired(states, now), history, threshold, duration, now, k)
      ensures k !in Unexpired(states, now) ==> !LockedAt(FailTimes(history, k), threshold, duration, now)
    {
      assert KeyOk(states, history, threshold, duration, clock, k);
      PurgedOk(Look(states, k), FailTimes(history, k), threshold, duration, clock, now);
    }
  }

  lemma CountKeeps(states: map<string, AttemptState>, history: seq<Event>, threshold: int, duration: real, now: real, key: string)
    requires StatesOk(states, history, threshold, duration, now)
    requires key in states ==> states[key].expiresAt > now
    ensures StatesOk(states[key := Counted(Look(states, key), threshold, duration, now)], history + [Failure(key, now)],
                     threshold, duration, now)
    ensures Streak(FailTimes(history + [Failure(key, now)], key), DECAY_FACTOR * duration)
         == Counted(Look(states, key), threshold, duration, now).failures
  {
    var states' := states[key := Counted(Look(states, key), threshold, duration, now)];
    var history' := history + [Failure(key, now)];
    forall k ensures KeyOk(states', history', threshold, duration, now, k) {
      assert KeyOk(states, history, threshold, duration, now, k);
      FailTimesSnoc(history, Failure(key, now), k);
      if k == key {
        CountedOk(Look(states, key), FailTimes(history, key), threshold, duration, now, now);
      }
    }
    assert KeyOk(states', history', threshold, duration, now, key);
  }

  lemma ResetKeeps(states: map<string, AttemptState>, history: seq<Event>, threshold: int, duration: real, clock: real, key: string)
    requires StatesOk(states, history, threshold, duration, clock)
    ensures StatesOk(states - {key}, history + [Event.Reset(key)], threshold, duration, clock)
  {
    forall k ensures KeyOk(states - {key}, history + [Event.Reset(key)], threshold, duration, clock, k) {
      assert KeyOk(states, history, threshold, duration, clock, k);
      FailTimesSnoc(history, Event.Reset(key), k);
    }
  }

  // ---- which emails share an account ----------------------------------------------

  /** The two emails are the same text when outer white space is dropped and ASCII letters are
      compared without case. */
  ghost predicate SameAccount(a: string, b: string) {
    exists i: nat, j: nat, k: nat, l: nat :: Core(a, i, j) && Core(b, k, l) && SameLetters(a[i..j], b[k..l])
  }

  /** The digest of the normalised email. */
  function Key(email: string): string {
    Lower(Strip(email))
  }

  /** Two emails share a counter exactly when they are the same account. */
  lemma KeysAreAccounts(a: string, b: string)
    ensures Key(a) == Key(b) <==> SameAccount(a, b)
  {
    hide AllSpace, Strip, Lower, SameLetters;
    var i, j := CoreExists(a);
    var k, l := CoreExists(b);
    StripIsCore(a, i, j);
    StripIsCore(b, k, l);
    LowerMeans(a[i..j], b[k..l]);
    if SameAccount(a, b) {
      var i': nat, j': nat, k': nat, l': nat :| Core(a, i', j') && Core(b, k', l') && SameLetters(a[i'..j'], b[k'..l']);
      StripIsCore(a, i', j');
      StripIsCore(b, k', l');
    }
  }

  /** What SecondsRemaining answers for an email, by the history. */
  ghost function Answer(history: seq<Event>, email: string, threshold: int, duration: real, now: real): int {
    Remaining(FailTimes(history, Key(email)), threshold, duration, now)
  }

  /** An event of one account changes no other account's answer, and the answers of all its
      spellings alike. */
  ghost predicate OnlyFor(email: string, history: seq<Event>, history': seq<Event>, threshold: int, duration: real) {
    && (forall other, now :: !SameAccount(email, other) ==>
          Answer(history', other, threshold, duration, now) == Answer(history, other, threshold, duration, now))
    && (forall other, now :: SameAccount(email, other) ==>
          Answer(history', other, threshold, duration, now) == Answer(history', email, threshold, duration, now))
  }

  lemma EventIsOnlyFor(email: string, history: seq<Event>, e: Event, threshold: int, duration: real)
    requires e.key == Key(email)
    ensures OnlyFor(email, history, history + [e], threshold, duration)
  {
    hide Key, SameAccount, Remaining, FailTimes;
    forall other ensures Key(email) == Key(other) <==> SameAccount(email, other) {
      KeysAreAccounts(email, other);
    }
    forall other, now | !SameAccount(email, other)
      ensures Answer(history + [e], other, threshold, duration, now) == Answer(history, other, threshold, duration, now)
    {
      FailTimesSnoc(history, e, Key(other));
    }
  }

  // ---- the object ---------------------------------------------------------------

  class AccountLockout {
    const threshold: int
    const durationSeconds: int
    var states: map<string, AttemptState>
    ghost var history: seq<Event>
    // The monotonic clock at the last call that read it.
    ghost var clock: real

    function Duration(): real {
      durationSeconds as real
    }

    ghost predicate Valid()
      reads this
    {
      clock >= 0.0 && Timely(history, clock) && StatesOk(states, history, threshold, Duration(), clock)
    }

    constructor (threshold: int, durationMinutes: int)
      ensures Valid() && history == []
      ensures this.threshold == threshold && durationSeconds == durationMinutes * 60
    {
      this.threshold, durationSeconds := threshold, durationMinutes * 60;
      states, history, clock := map[], [], 0.0;
    }

    /** Drops every expired entry; none of them is a live lock. */
    method Purge(now: real)
      requires Valid() && now >= clock
      modifies this`states, this`clock
      ensures Valid() && clock == now
      ensures forall k :: k in old(states) && k !in states ==>
                !LockedAt(FailTimes(history, k), threshold, Duration(), now)
      ensures states == Unexpired(old(states), now)
    {
      PurgeKeeps(states, history, threshold, Duration(), clock, now);
      states := Unexpired(states, now);
      clock := now;
    }

    /** Seconds this account stays locked, as the history defines it. */
    method SecondsRemaining(email: string, now: real) returns (seconds: int)
      requires Valid() && now >= clock
      modifies this`states, this`clock
      ensures Valid() && clock == now
      ensures seconds == Answer(history, email, threshold, Duration(), now)
    {
      var key := Key(email);
      Purge(now);
      assert KeyOk(states, history, threshold, Duration(), now, key);
      PurgedOk(Look(states, key), FailTimes(history, key), threshold, Duration(), now, now);
      if key !in states || states[key].lockedUntil <= now {
        return 0;
      }
      return (states[key].lockedUntil - now).Floor + 1;
    }

    /** Count one failure; the duration of the lock it leaves in force, or 0. */
    method RecordFailure(email: string, now: real) returns (locked: int)
      requires Valid() && now >= clock
      modifies this
      ensures Valid() && clock == now && history == old(history) + [Failure(Key(email), now)]
      ensures locked == if Streak(FailTimes(history, Key(email)), 2.0 * Duration()) >= threshold then durationSeconds else 0
      ensures OnlyFor(email, old(history), history, threshold, Duration())
    {
      hide OnlyFor;
      EventIsOnlyFor(email, history, Failure(Key(email), now), threshold, Duration());
      Purge(now);
      locked := CountPurged(Key(email), now);
    }

    /** record_failure after its purge. */
    method CountPurged(key: string, now: real) returns (locked: int)
      requires Valid() && clock == now
      requires key in states ==> states[key].expiresAt > now
      modifies this`states, this`history
      ensures Valid() && history == old(history) + [Failure(key, now)]
      ensures locked == if Streak(FailTimes(history, key), DECAY_FACTOR * Duration()) >= threshold then durationSeconds else 0
    {
      ghost var d := Duration();
      ghost var before := states;
      ghost var h := history;
      CountKeeps(before, h, threshold, d, now, key);
      var s: AttemptState;
      s, locked := Count(Look(states, key), now);
      states := states[key := s];
      history := history + [Failure(key, now)];
      assert StatesOk(states, history, threshold, d, now);
    }

    /** The part of record_failure that touches the entry. */
    method Count(entry: Option<AttemptState>, now: real) returns (s: AttemptState, locked: int)
      ensures s == Counted(entry, threshold, Duration(), now)
      ensures locked == if s.failures >= threshold then durationSeconds else 0
    {
      s := if entry.Some? then entry.value else AttemptState(0, 0.0, 0.0);
      s := s.(failures := s.failures + 1, expiresAt := now + DECAY_FACTOR * Duration());
      locked := 0;
      if s.failures >= threshold {
        var until := now + Duration();
        s := s.(lockedUntil := until, expiresAt := if s.expiresAt >= until then s.expiresAt else until);
        locked := durationSeconds;
      }
    }

    method Reset(email: string)
      requires Valid()
      modifies this`states, this`history
      ensures Valid() && history == old(history) + [Event.Reset(Key(email))]
      ensures OnlyFor(email, old(history), history, threshold, Duration())
      ensures forall now :: Answer(history, email, threshold, Duration(), now) == 0
    {
      hide OnlyFor;
      EventIsOnlyFor(email, history, Event.Reset(Key(email)), threshold, Duration());
      FailTimesSnoc(history, Event.Reset(Key(email)), Key(email));
      var key := Key(email);
      ResetKeeps(states, history, threshold, Duration(), clock, key);
      states := states - {key};
      history := history + [Event.Reset(key)];
    }
  }

  lemma FailTimesSnoc(history: seq<Event>, e: Event, k: string)
    ensures FailTimes(history + [e], k) ==
              if e.key != k then FailTimes(history, k)
              else if e.Failure? then FailTimes(history, k) + [e.at] else []
  {
    assert (history + [e])[..|history|] == history;
  }

  // ---- the rate bound -----------------------------------------------------------

  /** Every failure was recorded at an instant when the account was not locked. */
  ghost predicate Gated(times: seq<real>, threshold: int, duration: real) {
    forall i :: 0 < i < |times| ==> !LockedAt(times[..i], threshold, duration, times[i])
  }

  ghost predicate NonDecreasing(times: seq<real>) {
    forall i, j :: 0 <= i < j < |times| ==> times[i] <= times[j]
  }

  lemma {:induction false} StreakAtLeast(times: seq<real>, decay: real, i: nat)
    requires NonDecreasing(times) && i < |times| && times[|times| - 1] - times[i] < decay
    ensures Streak(times, decay) >= |times| - i
  {
    var n := |times|;
    if i < n - 1 {
      assert times[n - 2] >= times[i];
      assert times[..n - 1][n - 2] <= times[n - 1];
      StreakAtLeast(times[..n - 1], decay, i);
    }
  }

  /** Any `threshold` failures in a row take at least one duration to the next one: closer
      together they form one run, which locks. */
  lemma ThresholdTakesDuration(seen: seq<real>, threshold: nat, duration: real, now: real, i: nat)
    requires NonDecreasing(seen) && threshold > 0 && duration > 0.0
    requires i + threshold == |seen| && seen[|seen| - 1] <= now
    requires !LockedAt(seen, threshold, duration, now)
    ensures now - seen[i] >= duration
  {
    if seen[|seen| - 1] - seen[i] < DECAY_FACTOR * duration {
      StreakAtLeast(seen, DECAY_FACTOR * duration, i);
      assert seen[i] <= seen[|seen| - 1];
    }
  }

  // m * threshold and m * duration, one step at a time.
  function Steps(m: nat, threshold: nat): nat {
    if m == 0 then 0 else Steps(m - 1, threshold) + threshold
  }

  function Durations(m: nat, duration: real): real {
    if m == 0 then 0.0 else Durations(m - 1, duration) + duration
  }

  lemma {:induction false} StepsIsProduct(m: nat, threshold: nat)
    ensures Steps(m, threshold) == threshold * m
  {
    if m > 0 {
      StepsIsProduct(m - 1, threshold);
      assert threshold * (m - 1) + threshold == threshold * m;
    }
  }

  lemma {:induction false} DurationsIsProduct(m: nat, duration: real)
    ensures Durations(m, duration) == m as real * duration
  {
    if m > 0 {
      DurationsIsProduct(m - 1, duration);
      assert (m - 1) as real * duration + duration == m as real * duration;
    }
  }

  ghost predicate SpacedAt(times: seq<real>, threshold: nat, duration: real, i: nat) {
    i + threshold < |times| ==> times[i + threshold] - times[i] >= duration
  }

  lemma {:induction false} ManyThresholds(times: seq<real>, threshold: nat, duration: real, i: nat, m: nat)
    requires forall k: nat :: SpacedAt(times, threshold, duration, k)
    requires threshold > 0 && duration > 0.0
    requires i + Steps(m, threshold) < |times|
    ensures times[i + Steps(m, threshold)] - times[i] >= Durations(m, duration)
  {
    if m > 0 {
      ManyThresholds(times, threshold, duration, i, m - 1);
      assert SpacedAt(times, threshold, duration, i + Steps(m - 1, threshold));
    }
  }

  lemma FloorAbove(window: real, duration: real)
    requires duration > 0.0 && window >= 0.0
    ensures (window / duration).Floor >= 0
    ensures ((window / duration).Floor + 1) as real * duration > window
  {
    var x := window / duration;
    assert x * duration == window;
    assert (x.Floor + 1) as real > x;
  }

  lemma WindowSteps(threshold: nat, duration: real, window: real) returns (m: nat)
    requires duration > 0.0 && window >= 0.0
    ensures m == (window / duration).Floor + 1
    ensures Durations(m, duration) > window
    ensures Steps(m, threshold) == threshold * m
  {
    FloorAbove(window, duration);
    m := (window / duration).Floor + 1;
    StepsIsProduct(m, threshold);
    DurationsIsProduct(m, duration);
  }

  lemma AllSpaced(times: seq<real>, threshold: nat, duration: real)
    requires NonDecreasing(times) && Gated(times, threshold, duration) && threshold > 0 && duration > 0.0
    ensures forall k: nat :: SpacedAt(times, threshold, duration, k)
  {
    forall k: nat ensures SpacedAt(times, threshold, duration, k) {
      if k + threshold < |times| {
        ThresholdTakesDuration(times[..k + threshold], threshold, duration, times[k + threshold], k);
      }
    }
  }

  /** Rate bound: with failures recorded only while not locked, any closed window of length
      T holds at most threshold * (floor(T / duration) + 1) of them. */
  lemma RateBound(times: seq<real>, threshold: nat, duration: real, window: real, i: nat, j: nat)
    requires NonDecreasing(times) && Gated(times, threshold, duration) && threshold > 0 && duration > 0.0
    requires i <= j < |times| && times[j] - times[i] <= window
    ensures j - i + 1 <= threshold * ((window / duration).Floor + 1)
  {
    assert times[i] <= times[j];
    hide Streak;
    AllSpaced(times, threshold, duration);
    var m := WindowSteps(threshold, duration, window);
    StepBound(times, threshold, duration, window, i, j, m);
  }

  lemma StepBound(times: seq<real>, threshold: nat, duration: real, window: real, i: nat, j: nat, m: nat)
    requires NonDecreasing(times) && threshold > 0 && duration > 0.0
    requires forall k: nat :: SpacedAt(times, threshold, duration, k)
    requires i <= j < |times| && times[j] - times[i] <= window < Durations(m, duration)
    ensures j - i + 1 <= Steps(m, threshold)
  {
    if i + Steps(m, threshold) <= j {
      ManyThresholds(times, threshold, duration, i, m);
    }
  }

  /** The same for a whole history of many accounts: no reset of this account, and every one
      of its failures at an instant when seconds_remaining answers 0. */
  ghost predicate GatedHistory(history: seq<Event>, key: string, threshold: int, duration: real) {
    forall i :: 0 <= i < |history| && history[i].key == key ==>
      history[i].Failure? && Remaining(FailTimes(history[..i], key), threshold, duration, history[i].at) == 0
  }

  lemma {:induction false} HistoryIsGated(history: seq<Event>, key: string, threshold: int, duration: real)
    requires TimesInOrder(history) && GatedHistory(history, key, threshold, duration) && duration > 0.0
    ensures var times := FailTimes(history, key);
            && NonDecreasing(times) && Gated(times, threshold, duration)
            && forall k :: 0 <= k < |times| ==> Failure(key, times[k]) in history
  {
    if history != [] {
      var n := |history| - 1;
      var front := history[..n];
      forall i | 0 <= i < n ensures front[..i] == history[..i] && front[i] == history[i] {}
      HistoryIsGated(front, key, threshold, duration);
      var times := FailTimes(front, key);
      if history[n].key == key {
        RemainingZero(times, threshold, duration, history[n].at);
        forall k | 0 <= k < |times| ensures times[k] <= history[n].at {
          assert Failure(key, times[k]) in front;
        }
        GatedSnoc(times, threshold, duration, history[n].at);
      }
    }
  }

  lemma GatedSnoc(times: seq<real>, threshold: int, duration: real, now: real)
    requires Gated(times, threshold, duration) && !LockedAt(times, threshold, duration, now)
    ensures Gated(times + [now], threshold, duration)
  {
    var more := times + [now];
    forall i | 0 < i < |more| ensures !LockedAt(more[..i], threshold, duration, more[i]) {
      assert more[..i] == times[..i];
    }
  }

  lemma RemainingZero(times: seq<real>, threshold: int, duration: real, now: real)
    ensures Remaining(times, threshold, duration, now) == 0 <==> !LockedAt(times, threshold, duration, now)
  {
  }

  lemma AccountRateBound(history: seq<Event>, key: string, threshold: nat, duration: real, window: real, i: nat, j: nat)
    requires TimesInOrder(history) && GatedHistory(history, key, threshold, duration)
    requires threshold > 0 && duration > 0.0
    requires var times := FailTimes(history, key); i <= j < |times| && times[j] - times[i] <= window
    ensures j - i + 1 <= threshold * ((window / duration).Floor + 1)
  {
    HistoryIsGated(history, key, threshold, duration);
    RateBound(FailTimes(history, key), threshold, duration, window, i, j);
  }
}
