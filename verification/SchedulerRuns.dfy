/** What one scheduled job is guaranteed over every run of the service loop, in
    true time, and where the 32-bit clock takes that guarantee away. */
module SchedulerRuns {
  import opened Clock
  import opened Scheduler

  /** Everything that can happen to the job. Times are true times, frame stamps
      included; the job only ever sees their readings. Stamps come in any order. */
  datatype Step =
    | Frame(data: seq<bv8>, flags: Time, at: int)      // j2534_schedule_receive
    | Loss                                             // j2534_schedule_receive_lost
    | Pass(t: int, drained: bool)                      // service_bus, job not selected
    | Select(t: int, drained: bool)                    // service_bus, job selected and submitted
    | Report(s: int, e: int, t: int)                   // the transmission is known to have ended
    | Finish(success: bool, s: int, e: int, t: int)    // and its completion is collected
    | Defer                                            // or it never started

  /** What an onlooker has noted: the true stamps of all frames processed, those
      that match and those that do not, whether a loss or a failed transmission
      was seen, when the current transmission was selected, and the last
      reported start and end. */
  datatype Log = Log(matches: seq<int>, foreign: seq<int>, lost: bool, failed: bool,
                     chosen: int, start: When, end: When)

  /** Frames and losses reach only the repeat slots. */
  function OnFrame(j: Job, data: seq<bv8>, flags: Time, stamp: Time): (r: Job)
    requires JobValid(j)
  {
    if j.kind.Periodic? then j else Received(j, data, flags, stamp)
  }

  /** `service_bus` expires before it selects, once the queue is drained. */
  function Served(j: Job, t: int, drained: bool): (r: Job) {
    if drained && !j.kind.Periodic? then Expired(j, Reading(t)) else j
  }

  function Apply(j: Job, x: Step): (r: Job)
    requires JobValid(j)
  {
    match x
    case Frame(data, flags, at) => OnFrame(j, data, flags, Reading(at))
    case Loss => if j.kind.Periodic? then j else Lost(j)
    case Pass(t, drained) => Served(j, t, drained)
    case Select(t, drained) => Submitted(Served(j, t, drained))
    case Report(s, e, _) => Transmitted(j, Reading(s), Reading(e))
    case Finish(success, s, e, _) => Completed(j, success, Reading(s), Reading(e))
    case Defer => Deferred(j)
  }

  /** The report tells the job something new. */
  predicate News(j: Job, e: int) { !(j.transmissionEnded && j.ended == Reading(e)) }

  ghost function Note(j: Job, log: Log, x: Step): (r: Log)
    requires JobValid(j)
  {
    match x
    case Frame(data, flags, at) =>
      if Wanted(j, data, flags) then log.(matches := log.matches + [at])
      else log.(foreign := log.foreign + [at])
    case Loss => log.(lost := true)
    case Pass(_, _) => log
    case Select(t, _) => log.(chosen := t)
    case Report(s, e, _) => if News(j, e) then log.(start := Once(s), end := Once(e)) else log
    case Finish(success, s, e, _) =>
      if !success && !j.kind.Periodic? then log.(failed := true)
      else if News(j, e) then log.(start := Once(s), end := Once(e)) else log
    case Defer => log
  }

  /** What the service loop guarantees: selection only of an eligible job, time
      moves on, and reports only about the transmission that is under way. */
  ghost predicate Possible(j: Job, log: Log, now: int, x: Step)
    requires JobValid(j)
  {
    match x
    case Frame(_, _, _) => true
    case Loss => true
    case Pass(t, _) => now <= t
    case Select(t, drained) => now <= t && Eligible(Served(j, t, drained), Reading(t), drained)
    case Report(s, e, t) => j.pending && now <= t && log.chosen <= s <= e <= t
    case Finish(_, s, e, t) => j.pending && now <= t && log.chosen <= s <= e <= t
    case Defer => j.pending
  }

  function ClockAfter(now: int, x: Step): (r: int) {
    match x
    case Pass(t, _) => t
    case Select(t, _) => t
    case Report(_, _, t) => t
    case Finish(_, _, _, t) => t
    case _ => now
  }

  /** The instant from which the interval counts. */
  function From(j: Job, log: Log): (r: When) { if j.kind.Periodic? then log.start else log.end }

  // ---- What the wrapping clock makes of true stamps ----

  /** A job created at `t0` takes a frame stamped `at` for one since its creation. */
  predicate Heard(at: int, t0: int) { (at - t0) % WRAP < HALF }

  /** It takes the frame for one inside the window that began at `end`. */
  predicate Counts(at: int, end: int, interval: Time) { (at - end) % WRAP <= interval }

  lemma {:induction false} HeardExactly(at: int, t0: int)
    ensures AtOrAfter(Reading(at), Reading(t0)) <==> Heard(at, t0)
    ensures -HALF <= at - t0 < HALF ==> (Heard(at, t0) <==> at >= t0)
  {
    ReadingsDiffer(at, t0);
  }

  lemma {:induction false} CountsExactly(at: int, end: int, interval: Time)
    requires interval < HALF
    ensures InWindow(Reading(at), Reading(end), Reading(end + interval)) <==> Counts(at, end, interval)
    ensures interval - WRAP < at - end < WRAP ==> (Counts(at, end, interval) <==> end <= at <= end + interval)
  {
    HeardExactly(at, end);
    HeardExactly(end + interval, at);
    hide Reading, AtOrAfter;
    WindowModulo(at - end, interval);
    WithinAWrap(at - end, interval);
  }

  lemma {:induction false} WindowModulo(d: int, interval: nat)
    requires interval < HALF
    ensures d % WRAP < HALF && (interval - d) % WRAP < HALF <==> d % WRAP <= interval
  {
    var k := d / WRAP;
    ModShift(interval - d % WRAP, -k);
    assert interval - d == (interval - d % WRAP) + (-k) * WRAP;
    Wrapped(interval - d % WRAP);
  }

  lemma {:induction false} Wrapped(x: int)
    requires -WRAP < x < HALF
    ensures x % WRAP == if x < 0 then x + WRAP else x
  {
    ModShift(x, 1);
  }

  lemma {:induction false} WithinAWrap(d: int, interval: nat)
    requires interval < HALF
    ensures interval - WRAP < d < WRAP ==> (d % WRAP <= interval <==> 0 <= d <= interval)
  {
    if -WRAP < d < 0 {
      ModShift(d, 1);
    }
  }

  /** The exact law of one frame: it stops a repeat job if and only if it is the
      kind of frame that should and its distance from the creation, modulo the
      wrap, is less than half a wrap. A frame truly later is lost on the job
      whenever that distance is not. */
  lemma {:induction false} FrameStopsExactly(j: Job, t0: int, data: seq<bv8>, flags: Time, at: int)
    requires JobValid(j) && j.active && !j.kind.Periodic? && j.created == Reading(t0)
    ensures !Apply(j, Frame(data, flags, at)).active <==> Heard(at, t0) && (j.kind.Until? <==> Wanted(j, data, flags))
  {
    HeardExactly(at, t0);
    MatchesExactly(j, data, flags);
    hide Wanted, Matches, Heard;
  }

  /** One wrong bit where the mask looks makes another frame of it: it does not
      stop a repeat-until job nor count for a repeat-while job, and stops that. */
  lemma {:induction false} OneBitTells(j: Job, t0: int, data: seq<bv8>, flags: Time, at: int, i: nat, k: nat)
    requires JobValid(j) && j.active && !j.kind.Periodic? && j.created == Reading(t0) && Heard(at, t0)
    requires i < |data| && i < |j.mask| && k < 8 && BitSet(j.mask[i], k)
    requires BitSet(data[i], k) != BitSet(j.pattern[i], k)
    ensures var j' := Apply(j, Frame(data, flags, at));
            j' == if j.kind.Until? then j else j.(active := false)
  {
    HeardExactly(at, t0);
    MatchesExactly(j, data, flags);
    assert !ByteFits(data[i], j.mask[i], j.pattern[i]);
    hide Heard;
  }

  // ---- The invariant ----

  /** Some match heard by the job counts in its current window. */
  ghost predicate Answered(j: Job, log: Log, t0: int) {
    exists i :: 0 <= i < |log.matches| && Heard(log.matches[i], t0)
                && InWindow(Reading(log.matches[i]), j.ended, j.due)
  }

  ghost predicate NoneHeard(stamps: seq<int>, t0: int) {
    forall i :: 0 <= i < |stamps| ==> !Heard(stamps[i], t0)
  }

  ghost predicate Remembered(j: Job, log: Log, t0: int) {
    exists i :: 0 <= i < |log.matches| && Heard(log.matches[i], t0) && Reading(log.matches[i]) == j.matchUs
  }

  ghost predicate Conditions(j: Job, log: Log, t0: int) {
    && (!j.kind.Periodic? ==> j.created == Reading(t0))
    && (j.active && !j.kind.Periodic? ==> !log.lost && !log.failed)
    && (j.kind.Until? ==> (j.active <==> !log.lost && !log.failed && NoneHeard(log.matches, t0)))
    && (j.active && j.kind.While? ==> NoneHeard(log.foreign, t0))
    && (j.kind.While? && j.haveMatch ==> Remembered(j, log, t0))
    && (j.kind.While? && j.sent && j.matched ==> Answered(j, log, t0))
  }

  ghost predicate Timing(j: Job, log: Log, t0: int, now: int) {
    && 0 < j.interval < HALF && t0 <= now
    && (j.sent <==> log.start.Once?) && (j.sent <==> log.end.Once?)
    && (j.sent ==>
          && t0 <= log.start.at <= log.end.at <= now
          && j.ended == Reading(log.end.at)
          && j.due == Reading(From(j, log).at + j.interval))
    && (j.pending && !j.transmissionEnded && j.sent ==> log.chosen >= From(j, log).at + j.interval)
    && (j.pending ==> t0 <= log.chosen <= now)
  }

  ghost predicate Inv(j: Job, log: Log, t0: int, now: int) {
    JobValid(j) && Conditions(j, log, t0) && Timing(j, log, t0, now)
  }

  /** The promises made when the job is selected and when its start is reported,
      exact for every run. */
  ghost predicate Promise(j: Job, log: Log, t0: int, x: Step)
    requires JobValid(j)
  {
    match x
    case Select(t, drained) =>
      // nothing that should have stopped the job has been processed and heard
      && (!j.kind.Periodic? ==> drained && !log.lost && !log.failed)
      && (j.kind.Until? ==> NoneHeard(log.matches, t0))
      && (j.kind.While? ==> NoneHeard(log.foreign, t0))
      // a repeat-while job was answered in the window of its last transmission
      && (j.kind.While? && log.end.Once? ==>
            exists i :: 0 <= i < |log.matches| && Heard(log.matches[i], t0)
                        && Counts(log.matches[i], log.end.at, j.interval))
      // and the interval has passed
      && (From(j, log).Once? ==> t >= From(j, log).at + j.interval)
    case Report(s, _, _) =>
      !j.transmissionEnded && From(j, log).Once? ==> s >= From(j, log).at + j.interval
    case Finish(_, s, _, _) =>
      !j.transmissionEnded && From(j, log).Once? ==> s >= From(j, log).at + j.interval
    case _ => true
  }

  lemma {:induction false} DueIsTrue(j: Job, log: Log, t0: int, now: int, t: int)
    requires Timing(j, log, t0, now) && j.sent && now <= t && AtOrAfter(Reading(t), j.due)
    ensures t >= From(j, log).at + j.interval
  {
    var due := From(j, log).at + j.interval;
    if t < due {
      ReadingsCompare(t, due);
    }
  }

  ghost predicate Kept(j: Job, log: Log, t0: int, now: int, x: Step)
    requires JobValid(j)
  {
    && Inv(Apply(j, x), Note(j, log, x), t0, ClockAfter(now, x))
    && Promise(j, log, t0, x)
    && (!j.active ==> !Apply(j, x).active)
    && Apply(j, x).kind == j.kind && Apply(j, x).interval == j.interval
  }

  lemma {:induction false} NoneHeardMore(stamps: seq<int>, at: int, t0: int)
    ensures NoneHeard(stamps + [at], t0) <==> NoneHeard(stamps, t0) && !Heard(at, t0)
  {
    var more := stamps + [at];
    assert more[|stamps|] == at;
    assert forall i :: 0 <= i < |stamps| ==> more[i] == stamps[i];
  }

  /** More matches noted and the same window: what was answered stays answered. */
  lemma {:induction false} StaysAnswered(j: Job, log: Log, j': Job, log': Log, t0: int)
    requires |log.matches| <= |log'.matches| && log'.matches[..|log.matches|] == log.matches
    requires j'.ended == j.ended && j'.due == j.due
    ensures Answered(j, log, t0) ==> Answered(j', log', t0)
    ensures j'.matchUs == j.matchUs && Remembered(j, log, t0) ==> Remembered(j', log', t0)
  {
    forall i | 0 <= i < |log.matches| ensures log'.matches[i] == log.matches[i] {
      assert log'.matches[..|log.matches|][i] == log.matches[i];
    }
    if Answered(j, log, t0) {
      var i :| 0 <= i < |log.matches| && Heard(log.matches[i], t0) && InWindow(Reading(log.matches[i]), j.ended, j.due);
      assert log'.matches[i] == log.matches[i];
    }
    if j'.matchUs == j.matchUs && Remembered(j, log, t0) {
      var i :| 0 <= i < |log.matches| && Heard(log.matches[i], t0) && Reading(log.matches[i]) == j.matchUs;
      assert log'.matches[i] == log.matches[i];
    }
  }

  lemma {:induction false} FrameKept(j: Job, log: Log, t0: int, now: int, x: Step)
    requires Inv(j, log, t0, now) && x.Frame?
    ensures Kept(j, log, t0, now, x)
  {
    hide Conditions, Timing;
    FrameConditions(j, log, t0, x);
    FrameTiming(j, log, t0, now, x);
  }

  lemma {:induction false} FrameTiming(j: Job, log: Log, t0: int, now: int, x: Step)
    requires JobValid(j) && Timing(j, log, t0, now) && x.Frame?
    ensures Timing(Apply(j, x), Note(j, log, x), t0, now)
  {
    hide Reading, InWindow, Matches, Wanted, AtOrAfter;
  }

  lemma {:induction false} FrameConditions(j: Job, log: Log, t0: int, x: Step)
    requires JobValid(j) && Conditions(j, log, t0) && x.Frame?
    ensures Conditions(Apply(j, x), Note(j, log, x), t0)
  {
    hide Heard, Reading, InWindow, Matches, Wanted, AtOrAfter, Answered, Remembered, NoneHeard;
    var j', log' := Apply(j, x), Note(j, log, x);
    MatchesExactly(j, x.data, x.flags);
    HeardExactly(x.at, t0);
    NoneHeardMore(log.matches, x.at, t0);
    NoneHeardMore(log.foreign, x.at, t0);
    assert log'.matches[..|log.matches|] == log.matches;
    StaysAnswered(j, log, j', log', t0);
    if j' == Noted(j, Reading(x.at)) && log'.matches == log.matches + [x.at] && Heard(x.at, t0) {
      NewMatch(j, log, j', log', t0, x.at);
    }
  }

  lemma {:induction false} NewMatch(j: Job, log: Log, j': Job, log': Log, t0: int, at: int)
    requires log'.matches == log.matches + [at] && Heard(at, t0) && j' == Noted(j, Reading(at))
    ensures Remembered(j', log', t0)
    ensures j.sent && InWindow(Reading(at), j.ended, j.due) ==> Answered(j', log', t0)
  {
    assert log'.matches[|log.matches|] == at;
  }

  lemma {:induction false} AnswerCounts(j: Job, log: Log, t0: int, now: int)
    requires Timing(j, log, t0, now) && j.kind.While? && j.sent && Answered(j, log, t0)
    ensures exists i :: 0 <= i < |log.matches| && Heard(log.matches[i], t0)
                        && Counts(log.matches[i], log.end.at, j.interval)
  {
    var i :| 0 <= i < |log.matches| && Heard(log.matches[i], t0) && InWindow(Reading(log.matches[i]), j.ended, j.due);
    CountsExactly(log.matches[i], log.end.at, j.interval);
  }

  lemma {:induction false} ServedKept(j: Job, log: Log, t0: int, now: int, x: Step)
    requires Inv(j, log, t0, now) && (x.Pass? || x.Select?) && Possible(j, log, now, x)
    ensures Kept(j, log, t0, now, x)
  {
    hide Heard, Reading, InWindow, Answered, Remembered, NoneHeard, Counts;
    var served := Served(j, x.t, x.drained);
    assert served.sent == j.sent && served.due == j.due && served.ended == j.ended;
    if x.Select? && j.sent {
      DueIsTrue(j, log, t0, now, x.t);
      if j.kind.While? {
        AnswerCounts(j, log, t0, now);
      }
    }
    StaysAnswered(j, log, Apply(j, x), Note(j, log, x), t0);
  }

  /** A report of true times `s` and `e` leaves fields and log in step. */
  lemma {:induction false} TransmittedInv(j: Job, log: Log, t0: int, now: int, s: int, e: int, t: int)
    requires Inv(j, log, t0, now) && now <= t && t0 <= s <= e <= t
    ensures Inv(Transmitted(j, Reading(s), Reading(e)),
                if News(j, e) then log.(start := Once(s), end := Once(e)) else log, t0, t)
  {
    hide Heard, InWindow, NoneHeard;
    if News(j, e) {
      var j' := Transmitted(j, Reading(s), Reading(e));
      var log' := log.(start := Once(s), end := Once(e));
      LaterReads(if j.kind.Periodic? then s else e, j.interval);
      if j.kind.While? && j.haveMatch {
        var i :| 0 <= i < |log.matches| && Heard(log.matches[i], t0) && Reading(log.matches[i]) == j.matchUs;
        assert log'.matches[i] == log.matches[i];
        assert Remembered(j', log', t0);
        assert j'.matched ==> Answered(j', log', t0);
      }
    } else {
      assert Transmitted(j, Reading(s), Reading(e)) == j;
    }
  }

  lemma {:induction false} ReportKept(j: Job, log: Log, t0: int, now: int, x: Step)
    requires Inv(j, log, t0, now) && x.Report? && Possible(j, log, now, x)
    ensures Kept(j, log, t0, now, x)
  {
    hide Answered, Remembered, NoneHeard, Reading;
    TransmittedInv(j, log, t0, now, x.s, x.e, x.t);
  }

  lemma {:induction false} FinishKept(j: Job, log: Log, t0: int, now: int, x: Step)
    requires Inv(j, log, t0, now) && x.Finish? && Possible(j, log, now, x)
    ensures Kept(j, log, t0, now, x)
  {
    hide Answered, Remembered, NoneHeard, Reading;
    var idle := j.(pending := false);
    StaysAnswered(j, log, idle, log, t0);
    assert Inv(idle, log, t0, now);
    if x.success || j.kind.Periodic? {
      TransmittedInv(idle, log, t0, now, x.s, x.e, x.t);
    } else {
      StaysAnswered(j, log, Apply(j, x), Note(j, log, x), t0);
    }
  }

  lemma {:induction false} StepKept(j: Job, log: Log, t0: int, now: int, x: Step)
    requires Inv(j, log, t0, now) && Possible(j, log, now, x)
    ensures Kept(j, log, t0, now, x)
  {
    hide Answered, Remembered, NoneHeard, Reading, Heard;
    match x
    case Frame(_, _, _) => FrameKept(j, log, t0, now, x);
    case Pass(_, _) => ServedKept(j, log, t0, now, x);
    case Select(_, _) => ServedKept(j, log, t0, now, x);
    case Report(_, _, _) => ReportKept(j, log, t0, now, x);
    case Finish(_, _, _, _) => FinishKept(j, log, t0, now, x);
    case Loss => StaysAnswered(j, log, Apply(j, x), Note(j, log, x), t0);
    case Defer => StaysAnswered(j, log, Apply(j, x), Note(j, log, x), t0);
  }

  // ---- Whole runs ----

  datatype Run = Run(j: Job, log: Log, t0: int, now: int)

  ghost predicate Sound(r: Run) { Inv(r.j, r.log, r.t0, r.now) }

  ghost predicate Follows(r: Run, xs: seq<Step>)
    requires Sound(r)
    decreases |xs|
  {
    xs != [] ==>
      && Possible(r.j, r.log, r.now, xs[0])
      && (StepKept(r.j, r.log, r.t0, r.now, xs[0]); Follows(StepOnce(r, xs[0]), xs[1..]))
  }

  ghost function StepOnce(r: Run, x: Step): (r': Run)
    requires JobValid(r.j)
  {
    Run(Apply(r.j, x), Note(r.j, r.log, x), r.t0, ClockAfter(r.now, x))
  }

  ghost function After(r: Run, xs: seq<Step>): (r': Run)
    requires Sound(r) && Follows(r, xs)
    ensures Sound(r') && r'.t0 == r.t0 && r'.j.kind == r.j.kind && r'.j.interval == r.j.interval
    ensures !r.j.active ==> !r'.j.active
    decreases |xs|
  {
    if xs == [] then r
    else StepKept(r.j, r.log, r.t0, r.now, xs[0]); After(StepOnce(r, xs[0]), xs[1..])
  }

  const INTERVAL_MIN: int := 5_000
  const INTERVAL_MAX: int := 65_535_000

  /** A job as `start_periodic` and `j2534_core_repeat_start` create it at true
      time `t`: 5 ms to 65.535 s apart, and a repeat job with a mask. */
  ghost predicate Created(j: Job, t: int) {
    && JobValid(j) && j.active && INTERVAL_MIN <= j.interval <= INTERVAL_MAX && j.due == Reading(t)
    && (!j.kind.Periodic? ==> j.created == Reading(t) && j.mask != [])
    && !j.pending && !j.transmissionEnded && !j.sent && !j.matched && !j.haveMatch
  }

  const NEW := Log([], [], false, false, 0, Never, Never)

  ghost function Begin(j: Job, t: int): (r: Run)
    requires Created(j, t)
    ensures Sound(r)
  {
    Run(j, NEW, t, t)
  }

  lemma {:induction false} FollowsSplit(r: Run, xs: seq<Step>, x: Step)
    requires Sound(r) && Follows(r, xs + [x])
    ensures Follows(r, xs)
    ensures Possible(After(r, xs).j, After(r, xs).log, After(r, xs).now, x)
    ensures After(r, xs + [x]) == StepOnce(After(r, xs), x)
    decreases |xs|
  {
    if xs == [] {
      assert (xs + [x])[0] == x && (xs + [x])[1..] == [];
      StepKept(r.j, r.log, r.t0, r.now, x);
    } else {
      assert (xs + [x])[0] == xs[0] && (xs + [x])[1..] == xs[1..] + [x];
      StepKept(r.j, r.log, r.t0, r.now, xs[0]);
      FollowsSplit(StepOnce(r, xs[0]), xs[1..], x);
    }
  }

  /** What holds of every run, however long: at each selection no frame that
      should stop the job has been processed less than half a wrap after its
      creation modulo the wrap, a repeat-while job was answered in its window
      modulo the wrap, no loss or failure has been seen, and the interval has
      truly passed. */
  lemma {:induction false} SchedulerExact(j: Job, t: int, xs: seq<Step>, x: Step)
    requires Created(j, t) && Follows(Begin(j, t), xs + [x])
    ensures Follows(Begin(j, t), xs)
    ensures var r := After(Begin(j, t), xs); r.j.kind == j.kind && Promise(r.j, r.log, t, x)
  {
    FollowsSplit(Begin(j, t), xs, x);
    var r := After(Begin(j, t), xs);
    StepKept(r.j, r.log, r.t0, r.now, x);
  }

  /** A repeat-until job is active if and only if it has met no loss, no failed
      transmission and no matching frame that it hears. */
  lemma {:induction false} UntilActiveExactly(j: Job, t: int, xs: seq<Step>)
    requires Created(j, t) && j.kind.Until? && Follows(Begin(j, t), xs)
    ensures var r := After(Begin(j, t), xs);
            r.j.active <==> !r.log.lost && !r.log.failed && NoneHeard(r.log.matches, t)
  {
  }

  /** No frame of the run was stamped half a wrap or more from the creation. */
  ghost predicate Near(log: Log, t0: int) {
    && (forall i :: 0 <= i < |log.matches| ==> -HALF <= log.matches[i] - t0 < HALF)
    && (forall i :: 0 <= i < |log.foreign| ==> -HALF <= log.foreign[i] - t0 < HALF)
  }

  ghost predicate NoneSince(stamps: seq<int>, t0: int) {
    forall i :: 0 <= i < |stamps| ==> stamps[i] < t0
  }

  // ---- Transmissions that end in good time ----

  /** When the job was last due. */
  function DueAt(j: Job, log: Log, t0: int): (t: int) {
    if From(j, log).Once? then From(j, log).at + j.interval else t0
  }

  /** Each transmission is reported with one end, less than half a wrap minus two
      intervals (at least 33 minutes) after the job was due. */
  ghost predicate PromptStep(r: Run, x: Step) {
    match x
    case Report(_, e, _) => EndsInTime(r, e)
    case Finish(success, _, e, _) => success || r.j.kind.Periodic? ==> EndsInTime(r, e)
    case _ => true
  }

  ghost predicate EndsInTime(r: Run, e: int) {
    if r.j.transmissionEnded then r.log.end == Once(e)
    else e < DueAt(r.j, r.log, r.t0) + HALF - 2 * r.j.interval
  }

  ghost predicate Prompt(r: Run, xs: seq<Step>)
    requires Sound(r) && Follows(r, xs)
    decreases |xs|
  {
    xs != [] ==>
      && PromptStep(r, xs[0])
      && (StepKept(r.j, r.log, r.t0, r.now, xs[0]); Prompt(StepOnce(r, xs[0]), xs[1..]))
  }

  /** The last end is less than a wrap minus an interval after the creation, and
      while another transmission is under way less than half a wrap. */
  ghost predicate InBound(r: Run) {
    r.j.kind.While? && r.log.end.Once? ==>
      && r.log.end.at - r.t0 < WRAP - r.j.interval
      && (r.j.pending && !r.j.transmissionEnded ==> r.log.end.at - r.t0 < HALF)
  }

  /** A WHILE job that is selected was truly answered, if its last end is not too
      long ago. */
  lemma {:induction false} TrulyAnswered(r: Run, x: Step)
    requires Sound(r) && Possible(r.j, r.log, r.now, x) && x.Select? && r.j.kind.While? && r.log.end.Once?
    requires Near(r.log, r.t0) && r.log.end.at - r.t0 < WRAP - r.j.interval
    ensures exists i :: 0 <= i < |r.log.matches| && r.t0 <= r.log.matches[i] < r.t0 + HALF
                        && r.log.end.at <= r.log.matches[i] <= r.log.end.at + r.j.interval
  {
    hide Heard, Counts, Possible, Conditions;
    StepKept(r.j, r.log, r.t0, r.now, x);
    var log := r.log;
    var i :| 0 <= i < |log.matches| && Heard(log.matches[i], r.t0) && Counts(log.matches[i], log.end.at, r.j.interval);
    CountsExactly(log.matches[i], log.end.at, r.j.interval);
    HeardExactly(log.matches[i], r.t0);
  }

  lemma {:induction false} BoundStep(r: Run, x: Step)
    requires Sound(r) && Possible(r.j, r.log, r.now, x) && PromptStep(r, x) && InBound(r) && Near(r.log, r.t0)
    requires 0 < r.j.interval <= INTERVAL_MAX
    ensures InBound(StepOnce(r, x))
  {
    if x.Select? && r.j.kind.While? && r.log.end.Once? {
      TrulyAnswered(r, x);
    }
    hide Reading, AtOrAfter, Matches, Wanted, Conditions, Near;
  }

  /** Frames are only ever added. */
  lemma {:induction false} NearBefore(r: Run, xs: seq<Step>)
    requires Sound(r) && Follows(r, xs) && Near(After(r, xs).log, r.t0)
    ensures Near(r.log, r.t0)
    decreases |xs|
  {
    hide Possible, Apply, Conditions, Timing;
    if xs != [] {
      StepKept(r.j, r.log, r.t0, r.now, xs[0]);
      NearBefore(StepOnce(r, xs[0]), xs[1..]);
      NearStep(r, xs[0]);
    }
  }

  lemma {:induction false} NearStep(r: Run, x: Step)
    requires JobValid(r.j) && Near(StepOnce(r, x).log, r.t0)
    ensures Near(r.log, r.t0)
  {
    hide Matches, Wanted, Apply;
    var log, log' := r.log, StepOnce(r, x).log;
    assert forall i :: 0 <= i < |log.matches| ==> log'.matches[i] == log.matches[i];
    assert forall i :: 0 <= i < |log.foreign| ==> log'.foreign[i] == log.foreign[i];
  }

  lemma {:induction false} PromptBound(r: Run, xs: seq<Step>)
    requires Sound(r) && Follows(r, xs) && Prompt(r, xs) && InBound(r) && Near(After(r, xs).log, r.t0)
    requires 0 < r.j.interval <= INTERVAL_MAX
    ensures InBound(After(r, xs))
    decreases |xs|
  {
    hide Possible, Apply, Note, Conditions, Timing, PromptStep, InBound, Near;
    if xs != [] {
      NearBefore(r, xs);
      StepKept(r.j, r.log, r.t0, r.now, xs[0]);
      BoundStep(r, xs[0]);
      PromptBound(StepOnce(r, xs[0]), xs[1..]);
    }
  }

  /** Scheduler safety in true time: as long as every frame processed was stamped
      less than half a wrap (35.8 minutes) from the job's creation, an UNTIL job
      is not selected once a matching frame stamped since then has been
      processed; a WHILE job only while no other frame has, and again only if
      a match fell between the end of its last transmission and its due time,
      provided that its transmissions end in good time, or that the last one
      ended less than a wrap minus an interval after the creation. */
  lemma {:induction false} SchedulerSafe(j: Job, t: int, xs: seq<Step>, x: Step)
    requires Created(j, t) && Follows(Begin(j, t), xs + [x]) && x.Select?
    requires Follows(Begin(j, t), xs) && Near(After(Begin(j, t), xs).log, t)
    ensures var log := After(Begin(j, t), xs).log;
            && (!j.kind.Periodic? ==> !log.lost && !log.failed)
            && (j.kind.Until? ==> NoneSince(log.matches, t))
            && (j.kind.While? ==> NoneSince(log.foreign, t))
            && (j.kind.While? && log.end.Once?
                && (Prompt(Begin(j, t), xs) || log.end.at - t < WRAP - j.interval) ==>
                  exists i :: 0 <= i < |log.matches| && t <= log.matches[i]
                              && log.end.at <= log.matches[i] <= log.end.at + j.interval)
  {
    hide Heard, Counts, Possible, Near, PromptStep;
    SchedulerExact(j, t, xs, x);
    FollowsSplit(Begin(j, t), xs, x);
    var r := After(Begin(j, t), xs);
    NearHeard(r.log, t);
    if Prompt(Begin(j, t), xs) {
      PromptBound(Begin(j, t), xs);
    }
    if j.kind.While? && r.log.end.Once? && r.log.end.at - t < WRAP - j.interval {
      TrulyAnswered(r, x);
    }
  }

  lemma {:induction false} NearHeard(log: Log, t0: int)
    requires Near(log, t0)
    ensures NoneHeard(log.matches, t0) <==> NoneSince(log.matches, t0)
    ensures NoneHeard(log.foreign, t0) <==> NoneSince(log.foreign, t0)
  {
    HeardIsSince(log.matches, t0);
    HeardIsSince(log.foreign, t0);
  }

  lemma {:induction false} HeardIsSince(stamps: seq<int>, t0: int)
    requires forall i :: 0 <= i < |stamps| ==> -HALF <= stamps[i] - t0 < HALF
    ensures NoneHeard(stamps, t0) <==> NoneSince(stamps, t0)
  {
    hide Heard;
    forall i | 0 <= i < |stamps| ensures Heard(stamps[i], t0) <==> stamps[i] >= t0 {
      HeardExactly(stamps[i], t0);
    }
  }

  /** The condition on frames cannot be dropped. In ordinary service, each
      transmission sent the moment it is due and over at once, a repeat-until job
      is deaf half a wrap after its creation: a matching frame stamped then is
      processed, and the job is selected again. So it is for every interval. */
  lemma {:induction false} DeafAfterHalfAWrap(j: Job, t: int, data: seq<bv8>, flags: Time)
    returns (xs: seq<Step>, at: int)
    requires Created(j, t) && j.kind.Until? && Wanted(j, data, flags)
    ensures Follows(Begin(j, t), xs + [Select(at, true)]) && Follows(Begin(j, t), xs) && Prompt(Begin(j, t), xs)
    ensures t + HALF <= at < t + HALF + j.interval && After(Begin(j, t), xs).log.matches == [at]
  {
    var start := Begin(j, t);
    var cycles;
    cycles, at := KeepsGoing(start, t, data, flags);
    var rested := After(start, cycles);
    DeafThen(rested, at, data, flags);
    hide Follows, After, Prompt, Possible, Apply, Resting, Created;
    FollowsJoin(start, cycles, [Frame(data, flags, at)]);
    FollowsJoin(start, cycles, [Frame(data, flags, at)] + [Select(at, true)]);
    PromptJoin(start, cycles, [Frame(data, flags, at)]);
    xs := cycles + [Frame(data, flags, at)];
    assert xs + [Select(at, true)] == cycles + ([Frame(data, flags, at)] + [Select(at, true)]);
  }

  /** Between transmissions, due at `at`, with nothing heard so far. */
  ghost predicate Resting(r: Run, at: int, data: seq<bv8>, flags: Time) {
    && Sound(r) && r.j.kind.Until? && r.j.active && !r.j.pending && Wanted(r.j, data, flags)
    && INTERVAL_MIN <= r.j.interval <= INTERVAL_MAX
    && r.j.due == Reading(at) && r.now <= at && r.t0 <= at && DueAt(r.j, r.log, r.t0) == at
    && r.log.matches == [] && r.log.foreign == []
  }

  /** One transmission on time. */
  lemma {:induction false} OneCycle(r: Run, at: int, data: seq<bv8>, flags: Time) returns (r2: Run)
    requires Resting(r, at, data, flags)
    ensures var xs := [Select(at, true), Finish(true, at, at, at)];
            Follows(r, xs) && r2 == After(r, xs) && Prompt(r, xs)
    ensures Resting(r2, at + r.j.interval, data, flags) && r2.j.interval == r.j.interval && r2.t0 == r.t0
  {
    var x1, x2 := Select(at, true), Finish(true, at, at, at);
    HeardExactly(at, at);
    LaterReads(at, r.j.interval);
    StepKept(r.j, r.log, r.t0, r.now, x1);
    var r1 := StepOnce(r, x1);
    StepKept(r1.j, r1.log, r1.t0, r1.now, x2);
    r2 := StepOnce(r1, x2);
    hide Reading, AtOrAfter, Conditions, Matches, Wanted;
    FollowsCons(r1, x2, []);
    FollowsCons(r, x1, [x2] + []);
    assert [x1] + ([x2] + []) == [x1, x2];
    assert [x1, x2][1..] == [x2] && [x2][1..] == [];
    assert Prompt(r1, [x2]);
    assert r2.j.due == Reading(at + r.j.interval);
  }

  lemma {:induction false} KeepsGoing(r: Run, at: int, data: seq<bv8>, flags: Time) returns (xs: seq<Step>, then': int)
    requires Resting(r, at, data, flags) && at < r.t0 + HALF + r.j.interval
    ensures Follows(r, xs) && Prompt(r, xs) && Resting(After(r, xs), then', data, flags)
    ensures r.t0 + HALF <= then' < r.t0 + HALF + r.j.interval
    decreases r.t0 + HALF - at
  {
    hide Possible, Apply, Note, Conditions, Timing, Matches, Wanted;
    if at >= r.t0 + HALF {
      xs, then' := [], at;
    } else {
      var r2 := OneCycle(r, at, data, flags);
      var rest;
      rest, then' := KeepsGoing(r2, at + r.j.interval, data, flags);
      hide Follows, After, Prompt;
      var cycle := [Select(at, true), Finish(true, at, at, at)];
      FollowsJoin(r, cycle, rest);
      PromptJoin(r, cycle, rest);
      xs := cycle + rest;
    }
  }

  lemma {:induction false} PromptJoin(r: Run, xs: seq<Step>, ys: seq<Step>)
    requires Sound(r) && Follows(r, xs) && Follows(After(r, xs), ys) && Prompt(r, xs) && Prompt(After(r, xs), ys)
    ensures Follows(r, xs + ys) && Prompt(r, xs + ys)
    decreases |xs|
  {
    hide Possible, Apply, Note, Conditions, Timing, PromptStep;
    FollowsJoin(r, xs, ys);
    if xs == [] {
      assert xs + ys == ys;
    } else {
      assert (xs + ys)[0] == xs[0] && (xs + ys)[1..] == xs[1..] + ys;
      StepKept(r.j, r.log, r.t0, r.now, xs[0]);
      PromptJoin(StepOnce(r, xs[0]), xs[1..], ys);
    }
  }

  /** The match goes unheard and the job is selected. */
  lemma {:induction false} DeafThen(r: Run, at: int, data: seq<bv8>, flags: Time)
    requires Resting(r, at, data, flags) && r.t0 + HALF <= at < r.t0 + WRAP
    ensures var xs := [Frame(data, flags, at)];
            && Follows(r, xs) && Prompt(r, xs) && Follows(r, xs + [Select(at, true)])
            && After(r, xs).log.matches == [at]
  {
    var x1, x2 := Frame(data, flags, at), Select(at, true);
    HeardExactly(at, at);
    HeardExactly(at, r.t0);
    WithinWrap(at - r.t0);
    StepKept(r.j, r.log, r.t0, r.now, x1);
    var r1 := StepOnce(r, x1);
    StepKept(r1.j, r1.log, r1.t0, r1.now, x2);
    hide Reading, AtOrAfter, Matches, Wanted, Conditions;
    FollowsCons(r1, x2, []);
    FollowsCons(r, x1, [x2] + []);
    FollowsCons(r, x1, []);
    assert [x1] + ([x2] + []) == [x1] + [x2] && [x1] + [] == [x1];
    assert [x1][1..] == [];
  }

  lemma {:induction false} WithinWrap(d: int)
    requires HALF <= d < WRAP
    ensures d % WRAP == d
  {
  }

  lemma {:induction false} FollowsCons(r: Run, x: Step, xs: seq<Step>)
    requires Sound(r) && Possible(r.j, r.log, r.now, x)
    requires Sound(StepOnce(r, x)) && Follows(StepOnce(r, x), xs)
    ensures Follows(r, [x] + xs) && After(r, [x] + xs) == After(StepOnce(r, x), xs)
  {
    assert ([x] + xs)[0] == x && ([x] + xs)[1..] == xs;
  }

  /** A run spelled out step by step. */
  lemma {:induction false} ThreeSteps(r0: Run, x1: Step, x2: Step, x3: Step, x: Step)
    requires Sound(r0) && Possible(r0.j, r0.log, r0.now, x1)
    requires var r1 := StepOnce(r0, x1);
             && Sound(r1) && Possible(r1.j, r1.log, r1.now, x2)
             && var r2 := StepOnce(r1, x2);
             && Sound(r2) && Possible(r2.j, r2.log, r2.now, x3)
             && var r3 := StepOnce(r2, x3);
             && Sound(r3) && Possible(r3.j, r3.log, r3.now, x)
    ensures Follows(r0, [x1, x2, x3] + [x]) && Follows(r0, [x1, x2, x3])
    ensures After(r0, [x1, x2, x3]) == StepOnce(StepOnce(StepOnce(r0, x1), x2), x3)
  {
    hide Possible, Apply, Note, Conditions, Timing;
    var r1 := StepOnce(r0, x1);
    var r2 := StepOnce(r1, x2);
    var r3 := StepOnce(r2, x3);
    StepKept(r3.j, r3.log, r3.t0, r3.now, x);
    FollowsCons(r3, x, []);
    FollowsCons(r2, x3, [x] + []);
    FollowsCons(r1, x2, [x3] + ([x] + []));
    FollowsCons(r0, x1, [x2] + ([x3] + ([x] + [])));
    assert [x1] + ([x2] + ([x3] + ([x] + []))) == [x1, x2, x3] + [x];
    FollowsCons(r2, x3, []);
    FollowsCons(r1, x2, [x3] + []);
    FollowsCons(r0, x1, [x2] + ([x3] + []));
    assert [x1] + ([x2] + ([x3] + [])) == [x1, x2, x3];
  }

  /** Nor can the proviso of the WHILE clause: on this clock a match remembered
      from before a transmission that takes almost a wrap (71.6 minutes) to end
      counts in its window, and the job is selected again with no match truly in
      it. No driver lets a transmission take that long; this is a limit of the
      comparison, not of ordinary service. */
  lemma {:induction false} StaleMatchCounts(j: Job, data: seq<bv8>, flags: Time)
    returns (xs: seq<Step>, x: Step)
    requires Created(j, 0) && j.kind.While? && Wanted(j, data, flags)
    ensures Follows(Begin(j, 0), xs + [x]) && Follows(Begin(j, 0), xs) && x.Select?
    ensures var log := After(Begin(j, 0), xs).log;
            Near(log, 0) && log.matches == [5] && log.foreign == [] && log.end == Once(WRAP - 500)
  {
    var r0 := Begin(j, 0);
    var r3 := FirstAnswered(r0, data, flags);
    var x1, x2, x3 := Select(0, true), Finish(true, 0, 0, 0), Frame(data, flags, 5);
    var x4, x5 := Select(j.interval, true), Finish(true, WRAP - 500, WRAP - 500, WRAP - 500);
    x := Select(WRAP - 500 + j.interval, true);
    var r4, r5 := StaleAnswer(r3, x4, x5, x);
    hide Possible, Apply, Note, Conditions, Timing, StepOnce, Follows, After;
    ThreeSteps(r0, x1, x2, x3, x4);
    TwoSteps(r3, x4, x5, x);
    FollowsJoin(r0, [x1, x2, x3], [x4, x5]);
    FollowsJoin(r0, [x1, x2, x3], [x4, x5] + [x]);
    xs := [x1, x2, x3] + [x4, x5];
    assert xs + [x] == [x1, x2, x3] + ([x4, x5] + [x]);
  }

  lemma {:induction false} TwoSteps(r0: Run, x1: Step, x2: Step, x: Step)
    requires Sound(r0) && Possible(r0.j, r0.log, r0.now, x1)
    requires var r1 := StepOnce(r0, x1);
             && Sound(r1) && Possible(r1.j, r1.log, r1.now, x2)
             && var r2 := StepOnce(r1, x2);
             && Sound(r2) && Possible(r2.j, r2.log, r2.now, x)
    ensures Follows(r0, [x1, x2] + [x]) && Follows(r0, [x1, x2])
    ensures After(r0, [x1, x2]) == StepOnce(StepOnce(r0, x1), x2)
  {
    hide Possible, Apply, Note, Conditions, Timing;
    var r1 := StepOnce(r0, x1);
    var r2 := StepOnce(r1, x2);
    StepKept(r2.j, r2.log, r2.t0, r2.now, x);
    FollowsCons(r2, x, []);
    FollowsCons(r1, x2, [x] + []);
    FollowsCons(r0, x1, [x2] + ([x] + []));
    assert [x1] + ([x2] + ([x] + [])) == [x1, x2] + [x];
    FollowsCons(r1, x2, []);
    FollowsCons(r0, x1, [x2] + []);
    assert [x1] + ([x2] + []) == [x1, x2];
  }

  lemma {:induction false} FollowsJoin(r: Run, xs: seq<Step>, ys: seq<Step>)
    requires Sound(r) && Follows(r, xs) && Follows(After(r, xs), ys)
    ensures Follows(r, xs + ys) && After(r, xs + ys) == After(After(r, xs), ys)
    decreases |xs|
  {
    hide Possible, Apply, Note, Conditions, Timing;
    if xs == [] {
      assert xs + ys == ys;
    } else {
      assert (xs + ys)[0] == xs[0] && (xs + ys)[1..] == xs[1..] + ys;
      StepKept(r.j, r.log, r.t0, r.now, xs[0]);
      FollowsJoin(StepOnce(r, xs[0]), xs[1..], ys);
    }
  }

  /** Sent, and answered in time. */
  lemma {:induction false} FirstAnswered(r0: Run, data: seq<bv8>, flags: Time) returns (r3: Run)
    requires Sound(r0) && Created(r0.j, 0) && r0 == Begin(r0.j, 0)
    requires r0.j.kind.While? && Wanted(r0.j, data, flags)
    ensures var x1, x2, x3 := Select(0, true), Finish(true, 0, 0, 0), Frame(data, flags, 5);
            && Possible(r0.j, r0.log, r0.now, x1) && var r1 := StepOnce(r0, x1);
            && Sound(r1) && Possible(r1.j, r1.log, r1.now, x2) && var r2 := StepOnce(r1, x2);
            && Sound(r2) && Possible(r2.j, r2.log, r2.now, x3) && r3 == StepOnce(r2, x3) && Sound(r3)
    ensures r3.log == NEW.(matches := [5], chosen := 0, start := Once(0), end := Once(0))
    ensures r3.t0 == 0 && r3.now == 0
    ensures r3.j.active && r3.j.kind.While? && !r3.j.pending && r3.j.sent && r3.j.matched
    ensures r3.j.haveMatch && r3.j.matchUs == 5 && r3.j.due == r3.j.interval == r0.j.interval
  {
    var x1, x2, x3 := Select(0, true), Finish(true, 0, 0, 0), Frame(data, flags, 5);
    var r1 := StepOnce(r0, x1);
    StepKept(r0.j, r0.log, 0, r0.now, x1);
    var r2 := StepOnce(r1, x2);
    StepKept(r1.j, r1.log, 0, r1.now, x2);
    assert r2.j.mask == r0.j.mask && r2.j.pattern == r0.j.pattern && r2.j.matchFlags == r0.j.matchFlags;
    assert Wanted(r2.j, data, flags);
    MatchesExactly(r2.j, data, flags);
    r3 := StepOnce(r2, x3);
    StepKept(r2.j, r2.log, 0, r2.now, x3);
    hide Wanted, Matches;
  }

  /** Sent again, but not ended until almost a wrap later. */
  lemma {:induction false} StaleAnswer(r3: Run, x4: Step, x5: Step, x: Step) returns (r4: Run, r5: Run)
    requires Sound(r3) && r3.log == NEW.(matches := [5], chosen := 0, start := Once(0), end := Once(0))
    requires r3.t0 == 0 && r3.now == 0
    requires r3.j.active && r3.j.kind.While? && !r3.j.pending && r3.j.sent && r3.j.matched
    requires r3.j.haveMatch && r3.j.matchUs == 5 && INTERVAL_MIN <= r3.j.due == r3.j.interval <= INTERVAL_MAX
    requires x4 == Select(r3.j.interval, true) && x5 == Finish(true, WRAP - 500, WRAP - 500, WRAP - 500)
    requires x == Select(WRAP - 500 + r3.j.interval, true)
    ensures Possible(r3.j, r3.log, r3.now, x4) && r4 == StepOnce(r3, x4) && Sound(r4)
    ensures Possible(r4.j, r4.log, r4.now, x5) && r5 == StepOnce(r4, x5) && Sound(r5)
    ensures Possible(r5.j, r5.log, r5.now, x)
    ensures r5.log.matches == [5] && r5.log.foreign == [] && r5.log.end == Once(WRAP - 500)
    ensures r5.t0 == 0
  {
    hide Matches, Wanted, NoneHeard, Remembered, Answered;
    r4 := StepOnce(r3, x4);
    StepKept(r3.j, r3.log, 0, r3.now, x4);
    r5 := StepOnce(r4, x5);
    StepKept(r4.j, r4.log, 0, r4.now, x5);
  }

  /** Receive loss stops every repeat job for good. */
  lemma {:induction false} LossIsFinal(r: Run, xs: seq<Step>)
    requires Sound(r) && !r.j.kind.Periodic? && Follows(r, [Loss] + xs)
    ensures !After(r, [Loss] + xs).j.active
  {
    assert ([Loss] + xs)[1..] == xs;
    StepKept(r.j, r.log, r.t0, r.now, Loss);
  }

  // ---- Ends and transmissions ----

  /** In every run, a repeat-while job is given up at a service, with the queue
      drained, if and only if its last transmission is over, no match was counted
      for it, and the interval has passed. */
  lemma {:induction false} ExpiresExactly(j: Job, t0: int, xs: seq<Step>, t: int, drained: bool)
    requires Created(j, t0) && j.kind.While? && Follows(Begin(j, t0), xs) && After(Begin(j, t0), xs).j.active
    requires var r := After(Begin(j, t0), xs);
             r.now <= t && (r.log.end.Once? ==> t < r.log.end.at + j.interval + HALF)
    ensures var r := After(Begin(j, t0), xs);
            Apply(r.j, Pass(t, drained)).active <==>
              || !drained || r.log.end.Never? || (r.j.pending && !r.j.transmissionEnded) || r.j.matched
              || t < r.log.end.at + j.interval
  {
    hide Conditions, Reading, AtOrAfter;
    var r := After(Begin(j, t0), xs);
    if r.log.end.Once? {
      ReadingsCompare(t, r.log.end.at + j.interval);
    }
  }

  /** A transmission is under way from the selection to its completion, or to its
      being put off. */
  ghost predicate UnderWay(xs: seq<Step>) {
    xs != [] &&
    match xs[|xs| - 1]
    case Select(_, _) => true
    case Finish(_, _, _, _) => false
    case Defer => false
    case _ => UnderWay(xs[..|xs| - 1])
  }

  lemma {:induction false} PendingExactly(j: Job, t0: int, xs: seq<Step>)
    requires Created(j, t0) && Follows(Begin(j, t0), xs)
    ensures After(Begin(j, t0), xs).j.pending <==> UnderWay(xs)
  {
    hide Possible, Conditions, Timing, Note, Matches, Reading, AtOrAfter;
    if xs != [] {
      var was, x := xs[..|xs| - 1], xs[|xs| - 1];
      assert was + [x] == xs;
      FollowsSplit(Begin(j, t0), was, x);
      PendingExactly(j, t0, was);
    }
  }

  /** In every run a job can be selected, once it is due and less than half a wrap
      later, if and only if it is active with no transmission under way, and is
      periodic, or the queue is drained and it is not a repeat-while job that was
      sent and not answered. */
  lemma {:induction false} SelectsExactly(j: Job, t0: int, xs: seq<Step>, t: int, drained: bool)
    requires Created(j, t0) && Follows(Begin(j, t0), xs)
    requires var r := After(Begin(j, t0), xs); r.now <= t < DueAt(r.j, r.log, t0) + HALF
    ensures var r := After(Begin(j, t0), xs);
            Possible(r.j, r.log, r.now, Select(t, drained)) <==>
              && t >= DueAt(r.j, r.log, t0) && r.j.active && !UnderWay(xs)
              && (j.kind.Periodic? || (drained && !(j.kind.While? && r.log.end.Once? && !r.j.matched)))
  {
    hide Conditions, Reading, AtOrAfter, UnderWay;
    PendingExactly(j, t0, xs);
    DueFromStart(j, t0, xs);
    var r := After(Begin(j, t0), xs);
    DueReading(r);
    LateBy(r);
    ReadingsCompare(t, DueAt(r.j, r.log, t0));
  }

  /** Before its first transmission the job is due since its creation. */
  lemma {:induction false} DueFromStart(j: Job, t0: int, xs: seq<Step>)
    requires Created(j, t0) && Follows(Begin(j, t0), xs)
    ensures var r := After(Begin(j, t0), xs); !r.j.sent ==> r.j.due == Reading(t0)
  {
    hide Possible, Conditions, Timing, Note, Matches, Reading, AtOrAfter;
    if xs != [] {
      var was, x := xs[..|xs| - 1], xs[|xs| - 1];
      assert was + [x] == xs;
      FollowsSplit(Begin(j, t0), was, x);
      DueFromStart(j, t0, was);
    }
  }

  lemma {:induction false} DueReading(r: Run)
    requires Sound(r) && (!r.j.sent ==> r.j.due == Reading(r.t0))
    ensures r.j.due == Reading(DueAt(r.j, r.log, r.t0))
  {
    hide Conditions, Reading;
  }

  /** No time has been noted that lies behind the due time by more than an interval. */
  lemma {:induction false} LateBy(r: Run)
    requires Sound(r)
    ensures DueAt(r.j, r.log, r.t0) <= r.now + r.j.interval && r.j.interval < HALF
  {
    hide Conditions, Reading;
  }
}
