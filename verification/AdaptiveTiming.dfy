/** ELM327 adaptive reply timing: how long to wait for a reply, learned from the
    last sixteen exchanges. Milliseconds, unless a name says otherwise. */
module AdaptiveTiming {
  import opened Numbers

  const SAMPLES := 16
  const MIN_AT1 := 30
  const MIN_AT2 := 20
  const IDLE_START := 1000
  const IDLE_FULL := 5000
  const PENDING := 3000

  /** The AT ST limit in force, and whether AT2 (aggressive) is. */
  datatype Policy = Policy(limit: nat, aggressive: bool)

  predicate PolicyOk(p: Policy) { 0 < p.limit < 0x1_0000 }

  // ---- Margins and targets ----

  /** Latency plus a half (AT1) or a quarter (AT2), rounded up. */
  function WithShare(p: Policy, latency: nat): (r: nat) {
    if p.aggressive then latency + (latency + 3) / 4 else latency + (latency + 1) / 2
  }

  /** `elm327_latency_margin`. */
  function Margin(p: Policy, latency: nat): (r: nat) {
    var target := if latency < p.limit then WithShare(p, latency) else p.limit;
    Min(Max(target, if p.aggressive then MIN_AT2 else MIN_AT1), p.limit)
  }

  lemma {:induction false} MarginMeans(p: Policy, latency: nat)
    ensures Min(p.limit, WithShare(p, latency)) <= Margin(p, latency) <= p.limit
  {
  }

  /** Half as long again as the latency, or a quarter (AT2), and no shorter than
      30 ms, or 20. */
  predicate Enough(p: Policy, latency: nat, w: int) {
    if p.aggressive then 4 * w >= 5 * latency && w >= 20 else 2 * w >= 3 * latency && w >= 30
  }

  /** The margin is the least wait that is enough, or the limit. */
  lemma {:induction false} MarginExactly(p: Policy, latency: nat)
    ensures Margin(p, latency) <= p.limit
    ensures Margin(p, latency) < p.limit ==> Enough(p, latency, Margin(p, latency))
    ensures forall w: nat :: w < Margin(p, latency) ==> !Enough(p, latency, w)
  {
  }

  lemma {:induction false} MarginMonotone(p: Policy, x: nat, y: nat)
    requires x <= y
    ensures Margin(p, x) <= Margin(p, y)
  {
  }

  lemma {:induction false} MarginCaps(p: Policy, latency: nat)
    ensures Margin(p, Min(latency, p.limit)) == Margin(p, latency)
  {
  }

  function Sum(s: seq<nat>): (n: nat) { if s == [] then 0 else Sum(s[..|s| - 1]) + s[|s| - 1] }

  function Peak(s: seq<nat>): (n: nat)
    ensures forall i :: 0 <= i < |s| ==> s[i] <= n
  {
    if s == [] then 0 else Max(Peak(s[..|s| - 1]), s[|s| - 1])
  }

  function Apart(x: nat, y: nat): (n: nat)
    ensures x == y + n || y == x + n
  {
    if x > y then x - y else y - x
  }

  function Spread(s: seq<nat>, mean: nat): (n: nat) {
    if s == [] then 0 else Spread(s[..|s| - 1], mean) + Apart(s[|s| - 1], mean)
  }

  /** Rounded up. */
  function CeilDiv(x: nat, n: nat): (r: nat)
    requires n > 0
    ensures n * r - n < x <= n * r
  {
    CeilBounds(x, n);
    (x + n - 1) / n
  }

  lemma {:induction false} CeilBounds(x: nat, n: nat)
    requires n > 0
    ensures var r := (x + n - 1) / n; n * r - n < x <= n * r
  {
    var r := (x + n - 1) / n;
    assert x + n - 1 == n * r + (x + n - 1) % n;
  }

  function Mean(s: seq<nat>): (n: nat)
    requires s != []
  {
    CeilDiv(Sum(s), |s|)
  }

  /** `elm327_timing_target`. */
  function Target(p: Policy, s: seq<nat>): (n: nat)
    requires s != []
  {
    var deviation := CeilDiv(Spread(s, Mean(s)), |s|);
    var wanted := Mean(s) + 4 + deviation * (if p.aggressive then 2 else 4);
    Min(Max(wanted, Margin(p, Peak(s))), p.limit)
  }

  /** A further sample adds itself, and its distance from the mean. */
  lemma {:induction false} OneMoreSample(s: seq<nat>, x: nat, mean: nat)
    ensures Sum([]) == Spread([], mean) == 0
    ensures Sum(s + [x]) == Sum(s) + x
    ensures Spread(s + [x], mean) == Spread(s, mean) + if x > mean then x - mean else mean - x
  {
    assert (s + [x])[..|s|] == s;
  }

  /** `q` is `x / n`, rounded up. */
  predicate IsShare(x: nat, n: nat, q: nat) { n * q - n < x <= n * q }

  /** The target is the least wait that is 4 ms and four mean deviations (AT2:
      two) longer than the mean and allows for the peak, or the limit. */
  lemma {:induction false} TargetExactly(p: Policy, s: seq<nat>) returns (mean: nat, deviation: nat)
    requires s != []
    ensures IsShare(Sum(s), |s|, mean) && IsShare(Spread(s, mean), |s|, deviation)
    ensures var least := mean + 4 + (if p.aggressive then 2 * deviation else 4 * deviation);
            Target(p, s) == Min(Max(least, Margin(p, Peak(s))), p.limit)
  {
    mean := Mean(s);
    deviation := CeilDiv(Spread(s, mean), |s|);
    hide Margin, Sum, Spread, Peak, CeilDiv;
  }

  /** The target allows for every sample. */
  lemma {:induction false} TargetCovers(p: Policy, s: seq<nat>)
    requires s != []
    ensures Target(p, s) <= p.limit
    ensures forall i :: 0 <= i < |s| ==> Margin(p, s[i]) <= Target(p, s)
  {
    hide Margin, Spread, Mean, Peak;
    MarginMeans(p, Peak(s));
    forall i | 0 <= i < |s| ensures Margin(p, s[i]) <= Target(p, s) {
      MarginMonotone(p, s[i], Peak(s));
    }
  }

  /** `elm327_timing_update`. */
  function Updated(estimate: nat, target: nat, shrink: bool): (r: nat)
    ensures r >= target
  {
    if estimate == 0 || target > estimate then target
    else if shrink then estimate - (estimate - target + 7) / 8
    else estimate
  }

  /** A shrinking step takes away one eighth of the way to the target, rounded
      up: seven eighths are left, rounded down. */
  lemma {:induction false} ShrinkLeaves(estimate: nat, target: nat)
    requires 0 < estimate && target <= estimate
    ensures Updated(estimate, target, true) - target == 7 * (estimate - target) / 8
    ensures Updated(estimate, target, false) == estimate
  {
  }

  function Shrunk(estimate: nat, target: nat, n: nat): (r: nat)
    decreases n
  {
    if n == 0 then estimate else Shrunk(Updated(estimate, target, true), target, n - 1)
  }

  /** The estimate never falls below its target and gets there. */
  lemma {:induction false} ShrinkArrives(estimate: nat, target: nat, n: nat)
    requires 0 < target <= estimate
    ensures target <= Shrunk(estimate, target, n) <= estimate
    ensures n >= estimate - target ==> Shrunk(estimate, target, n) == target
    decreases n
  {
    if n > 0 {
      ShrinkArrives(Updated(estimate, target, true), target, n - 1);
    }
  }

  // ---- The window ----

  /** `elm327_reply_window`, outside a protocol search; `last` is 0 before the
      first exchange has finished. */
  function Window(p: Policy, estimate: nat, lastUs: int, nowUs: int): (w: nat)
  {
    if estimate == 0 then p.limit
    else
      var window := Min(estimate, p.limit);
      var idle := (nowUs - lastUs) / 1000;
      if lastUs == 0 || idle <= IDLE_START then window
      else if idle >= IDLE_FULL then p.limit
      else
        WidenedBounds(p.limit - window, idle - IDLE_START);
        window + (p.limit - window) * (idle - IDLE_START) / (IDLE_FULL - IDLE_START)
  }

  lemma {:induction false} WidenedBounds(room: nat, idle: nat)
    requires idle <= 4000
    ensures 0 <= room * idle / 4000 <= room
  {
    assert room * idle <= room * 4000;
  }

  lemma {:induction false} WindowBounds(p: Policy, estimate: nat, lastUs: int, nowUs: int)
    ensures Window(p, estimate, lastUs, nowUs) <= p.limit
    ensures estimate != 0 ==> Min(estimate, p.limit) <= Window(p, estimate, lastUs, nowUs)
  {
    var idle := (nowUs - lastUs) / 1000;
    if estimate != 0 && IDLE_START < idle < IDLE_FULL {
      WidenedBounds(p.limit - Min(estimate, p.limit), idle - IDLE_START);
    }
  }

  /** Up to a second of idle time the window is the estimate, from five on the
      limit, and in between it moves from one to the other in proportion. */
  lemma {:induction false} WindowExactly(p: Policy, estimate: nat, lastUs: int, nowUs: int)
    ensures var w := Window(p, estimate, lastUs, nowUs);
            var base := Min(estimate, p.limit);
            var ms := (nowUs - lastUs) / 1000;
            if estimate == 0 then w == p.limit
            else if lastUs == 0 || nowUs - lastUs < 1_001_000 then w == base
            else if nowUs - lastUs >= 5_000_000 then w == p.limit
            else 4000 * (w - base) <= (p.limit - base) * (ms - 1000) < 4000 * (w - base + 1)
  {
    var base, ms := Min(estimate, p.limit), (nowUs - lastUs) / 1000;
    if estimate != 0 && lastUs != 0 && 1_001_000 <= nowUs - lastUs < 5_000_000 {
      Share((p.limit - base) * (ms - 1000));
    }
  }

  lemma {:induction false} Share(x: int)
    ensures 4000 * (x / 4000) <= x < 4000 * (x / 4000 + 1)
  {
  }

  /** The longer the line has been idle, the longer the wait. */
  lemma {:induction false} WindowMonotone(p: Policy, estimate: nat, lastUs: int, t: int, u: int)
    requires t <= u
    ensures Window(p, estimate, lastUs, t) <= Window(p, estimate, lastUs, u)
  {
    WindowBounds(p, estimate, lastUs, t);
    WindowBounds(p, estimate, lastUs, u);
    var i, j := (t - lastUs) / 1000, (u - lastUs) / 1000;
    if estimate != 0 && IDLE_START < i && j < IDLE_FULL {
      WidenedMonotone(p.limit - Min(estimate, p.limit), i - IDLE_START, j - IDLE_START);
    }
  }

  lemma {:induction false} WidenedMonotone(room: nat, x: nat, y: nat)
    requires x <= y
    ensures room * x / 4000 <= room * y / 4000
  {
    assert room * x <= room * y;
    Quotients(room * x, room * y);
  }

  lemma {:induction false} Quotients(a: nat, b: nat)
    requires a <= b
    ensures a / 4000 <= b / 4000
  {
  }

  // ---- Learning ----

  /** Where this exchange's sample is, if it has one yet. */
  datatype Slot = NoSlot | Slot(i: nat)

  /** `e->timing`, with the parts of its watch that matter here. */
  datatype Timing = Timing(estimate: nat, samples: seq<nat>, count: nat, next: nat, lastUs: int,
                           window: nat, latency: nat, deadline: nat, slot: Slot)

  predicate TimingOk(t: Timing) {
    |t.samples| == SAMPLES && t.count <= SAMPLES && t.next < SAMPLES
    && (t.count < SAMPLES ==> t.next == t.count)
    && (t.slot.Slot? ==> t.slot.i < t.count)
  }

  const BLANK := Timing(0, [0, 0, 0, 0, 0, 0, 0, 0, 0, 0, 0, 0, 0, 0, 0, 0], 0, 0, 0, 0, 0, 0, NoSlot)

  function Begun(p: Policy, t: Timing, nowUs: int): (r: Timing) {
    t.(window := Window(p, t.estimate, t.lastUs, nowUs), latency := 0, deadline := p.limit, slot := NoSlot)
  }

  /** A reply counts as at least one millisecond, and keeps the exchange open
      for another limit, or for three seconds if it announces a later one. */
  function Until(p: Policy, ms: nat, pending: bool): (r: nat) { Max(ms, 1) + if pending then PENDING else p.limit }

  /** `elm327_timing_reply`. */
  function Replied(p: Policy, t: Timing, ms: nat, pending: bool): (r: Timing) {
    t.(latency := Max(t.latency, Max(ms, 1)), deadline := Max(t.deadline, Until(p, ms, pending)))
  }

  /** A sample of its own for this exchange. */
  function Placed(t: Timing): (r: Timing)
    requires TimingOk(t)
    ensures TimingOk(r) && r.slot.Slot?
  {
    if t.slot.Slot? then t
    else t.(slot := Slot(t.next), next := (t.next + 1) % SAMPLES, count := Min(t.count + 1, SAMPLES))
  }

  /** `elm327_record_latency`. */
  function Recorded(p: Policy, t: Timing, shrink: bool): (r: Timing)
    requires TimingOk(t)
    ensures TimingOk(r)
  {
    var q := Placed(t);
    var samples := q.samples[q.slot.i := Min(t.latency, p.limit)];
    q.(samples := samples, estimate := Updated(q.estimate, Target(p, samples[..q.count]), shrink))
  }

  /** `elm327_timing_backoff`. */
  function BackedOff(p: Policy, t: Timing): (r: Timing) {
    t.(estimate := Max(t.estimate, Min(2 * t.window, p.limit)))
  }

  /** `elm327_timing_finish`. */
  function Finished(p: Policy, t: Timing, nowUs: int, incomplete: bool): (r: Timing)
    requires TimingOk(t)
    ensures TimingOk(r)
  {
    var timed := t.(lastUs := nowUs);
    var learned := if t.latency != 0 then Recorded(p, timed, true) else timed;
    if t.latency == 0 || incomplete then BackedOff(p, learned) else learned
  }

  /** A late reply still belongs to the exchange. */
  predicate InTime(t: Timing, ms: nat) { 0 < ms <= t.deadline }

  /** A reply after the exchange has finished. */
  function LateReplied(p: Policy, t: Timing, ms: nat, pending: bool): (r: Timing)
    requires TimingOk(t)
    ensures TimingOk(r)
  {
    if InTime(t, ms) then Recorded(p, Replied(p, t, ms, pending), false) else t
  }

  class Timer {
    const policy: Policy
    const samples: array<nat>
    var estimate: nat
    var count: nat
    var next: nat
    var lastUs: int
    var window: nat
    var latency: nat
    var deadline: nat
    var slot: Slot

    ghost function View(): (t: Timing)
      reads this, samples
    {
      Timing(estimate, samples[..], count, next, lastUs, window, latency, deadline, slot)
    }

    ghost predicate Valid()
      reads this, samples
    {
      TimingOk(View())
    }

    constructor (policy: Policy)
      ensures Valid() && View() == BLANK && this.policy == policy && fresh(samples)
    {
      this.policy := policy;
      samples := new nat[SAMPLES](_ => 0);
      estimate, count, next, lastUs, window, latency, deadline, slot := 0, 0, 0, 0, 0, 0, 0, NoSlot;
      new;
      assert samples[..] == BLANK.samples;
    }

    method ComputeTarget() returns (target: nat)
      requires Valid() && count > 0
      ensures target == Target(policy, samples[..count])
    {
      hide Margin, CeilDiv, Apart;
      var sum, peak, i := 0, 0, 0;
      while i < count
        invariant 0 <= i <= count && sum == Sum(samples[..i]) && peak == Peak(samples[..i])
      {
        assert samples[..i + 1][..i] == samples[..i];
        sum := sum + samples[i];
        if samples[i] > peak {
          peak := samples[i];
        }
        i := i + 1;
      }
      var mean := CeilDiv(sum, count);
      var deviation := 0;
      i := 0;
      while i < count
        invariant 0 <= i <= count && deviation == Spread(samples[..i], mean)
      {
        assert samples[..i + 1][..i] == samples[..i];
        deviation := deviation + Apart(samples[i], mean);
        i := i + 1;
      }
      deviation := CeilDiv(deviation, count);
      target := mean + 4 + deviation * (if policy.aggressive then 2 else 4);
      if target < Margin(policy, peak) {
        target := Margin(policy, peak);
      }
      target := if target < policy.limit then target else policy.limit;
    }

    method TakeSlot()
      requires Valid()
      modifies this`slot, this`next, this`count
      ensures Valid() && View() == Placed(old(View()))
    {
      if slot.NoSlot? {
        slot, next := Slot(next), (next + 1) % SAMPLES;
        if count < SAMPLES {
          count := count + 1;
        }
      }
    }

    method RecordLatency(shrink: bool)
      requires Valid()
      modifies this`slot, this`next, this`count, this`estimate, samples
      ensures Valid() && View() == Recorded(policy, old(View()), shrink)
    {
      hide Target;
      TakeSlot();
      samples[slot.i] := if latency < policy.limit then latency else policy.limit;
      var target := ComputeTarget();
      if estimate == 0 || target > estimate {
        estimate := target;
      } else if shrink {
        estimate := estimate - (estimate - target + 7) / 8;
      }
    }

    method Begin(nowUs: int)
      requires Valid()
      modifies this`window, this`latency, this`deadline, this`slot
      ensures Valid() && View() == Begun(policy, old(View()), nowUs)
    {
      hide Window;
      window := Window(policy, estimate, lastUs, nowUs);
      latency, deadline, slot := 0, policy.limit, NoSlot;
    }

    method Reply(ms: nat, pending: bool)
      requires Valid()
      modifies this`latency, this`deadline
      ensures Valid() && View() == Replied(policy, old(View()), ms, pending)
    {
      var counted := if ms == 0 then 1 else ms;
      if counted > latency {
        latency := counted;
      }
      var end := counted + if pending then PENDING else policy.limit;
      if end > deadline {
        deadline := end;
      }
    }

    method LateReply(ms: nat, pending: bool)
      requires Valid()
      modifies this, samples
      ensures Valid() && View() == LateReplied(policy, old(View()), ms, pending)
    {
      hide Recorded, Replied;
      if ms == 0 || ms > deadline {
        return;
      }
      Reply(ms, pending);
      RecordLatency(false);
    }

    method Backoff()
      requires Valid()
      modifies this`estimate
      ensures Valid() && View() == BackedOff(policy, old(View()))
    {
      var wider := window * 2;
      if wider > policy.limit {
        wider := policy.limit;
      }
      if wider > estimate {
        estimate := wider;
      }
    }

    method Finish(nowUs: int, incomplete: bool)
      requires Valid()
      modifies this, samples
      ensures Valid() && View() == Finished(policy, old(View()), nowUs, incomplete)
    {
      hide Recorded, BackedOff;
      lastUs := nowUs;
      if latency != 0 {
        RecordLatency(true);
      }
      if latency == 0 || incomplete {
        Backoff();
      }
    }
  }

  // ---- Whole runs ----

  datatype Event =
    | Begin(nowUs: int)
    | Reply(ms: nat, pending: bool)
    | LateReply(ms: nat, pending: bool)
    | Finish(nowUs: int, incomplete: bool)

  function Step(p: Policy, t: Timing, e: Event): (r: Timing)
    requires TimingOk(t)
    ensures TimingOk(r)
  {
    match e
    case Begin(now) => Begun(p, t, now)
    case Reply(ms, pending) => Replied(p, t, ms, pending)
    case LateReply(ms, pending) => LateReplied(p, t, ms, pending)
    case Finish(now, incomplete) => Finished(p, t, now, incomplete)
  }

  /** The longest reply of every exchange so far that has one on record. */
  function Note(t: Timing, past: seq<nat>, e: Event): (r: seq<nat>) {
    if e.LateReply? && InTime(t, e.ms) then Filed(t, past, Max(t.latency, e.ms))
    else if e.Finish? && t.latency != 0 then Filed(t, past, t.latency)
    else past
  }

  function Filed(t: Timing, past: seq<nat>, latency: nat): (r: seq<nat>) {
    if t.slot.Slot? && past != [] then past[|past| - 1 := latency] else past + [latency]
  }

  datatype History = History(t: Timing, past: seq<nat>)

  ghost function RunAll(p: Policy, es: seq<Event>): (h: History)
    ensures TimingOk(h.t)
  {
    if es == [] then History(BLANK, [])
    else
      var h := RunAll(p, es[..|es| - 1]);
      var e := es[|es| - 1];
      History(Step(p, h.t, e), Note(h.t, h.past, e))
  }

  function Place(i: nat): (k: nat)
    ensures k < SAMPLES
  {
    i % SAMPLES
  }

  /** Exchange `i` is one of the last sixteen. */
  predicate Recent(past: seq<nat>, i: nat) { i < |past| <= i + 16 }

  /** The ring holds the last sixteen exchanges, capped at the limit. */
  ghost predicate Remembers(p: Policy, t: Timing, past: seq<nat>)
    requires TimingOk(t)
  {
    && t.count == Min(|past|, SAMPLES) && t.next == Place(|past|)
    && (t.slot.Slot? ==> past != [] && t.slot.i == Place(|past| - 1))
    && forall i: nat :: Recent(past, i) ==> t.samples[Place(i)] == Min(past[i], p.limit)
  }

  /** And the estimate allows for each of them. */
  ghost predicate Allows(p: Policy, t: Timing)
    requires TimingOk(t)
  {
    t.estimate <= p.limit && (t.count > 0 ==> t.estimate > 0)
    && forall k :: 0 <= k < t.count ==> Margin(p, t.samples[k]) <= t.estimate
  }

  ghost predicate Inv(p: Policy, h: History) {
    TimingOk(h.t) && Remembers(p, h.t, h.past) && Allows(p, h.t)
  }

  lemma {:induction false} PlacesApart(i: nat, j: nat)
    requires i < j < i + SAMPLES
    ensures Place(i) != Place(j)
  {
  }

  lemma {:induction false} RecordKeeps(p: Policy, t: Timing, past: seq<nat>, shrink: bool)
    requires PolicyOk(p) && Inv(p, History(t, past)) && t.latency > 0
    ensures Inv(p, History(Recorded(p, t, shrink), Filed(t, past, t.latency)))
  {
    hide Target, Margin, Place;
    var q := Placed(t);
    var r := Recorded(p, t, shrink);
    var past' := Filed(t, past, t.latency);
    PlacedAt(p, t, past);
    forall i: nat | Recent(past', i) ensures r.samples[Place(i)] == Min(past'[i], p.limit) {
      if i < |past'| - 1 {
        PlacesApart(i, |past'| - 1);
        assert Recent(past, i);
      }
    }
    TargetCovers(p, r.samples[..r.count]);
    TargetPositive(p, r.samples[..r.count]);
    forall k | 0 <= k < r.count ensures Margin(p, r.samples[k]) <= r.estimate {
      assert r.samples[..r.count][k] == r.samples[k];
    }
  }

  lemma {:induction false} PlacedAt(p: Policy, t: Timing, past: seq<nat>)
    requires Inv(p, History(t, past))
    ensures var q, n := Placed(t), |Filed(t, past, t.latency)|;
            q.slot.i == Place(n - 1) && q.next == Place(n) && q.count == Min(n, SAMPLES)
  {
    hide Margin, Place, Allows;
    if t.slot.NoSlot? {
      PlaceNext(|past|);
    }
  }

  lemma {:induction false} PlaceNext(n: nat)
    ensures (Place(n) + 1) % SAMPLES == Place(n + 1)
  {
  }

  lemma {:induction false} TargetPositive(p: Policy, s: seq<nat>)
    requires PolicyOk(p) && s != []
    ensures Target(p, s) > 0
  {
    hide Spread, Mean, Peak;
  }

  lemma {:induction false} StepKeeps(p: Policy, h: History, e: Event)
    requires PolicyOk(p) && Inv(p, h)
    ensures Inv(p, History(Step(p, h.t, e), Note(h.t, h.past, e)))
  {
    hide Target, Margin, Place, Recorded;
    match e
    case Begin(now) => hide Window;
    case Reply(_, _) =>
    case LateReply(ms, pending) =>
      if InTime(h.t, ms) {
        RecordKeeps(p, Replied(p, h.t, ms, pending), h.past, false);
      }
    case Finish(now, incomplete) =>
      var timed := h.t.(lastUs := now);
      if h.t.latency != 0 {
        RecordKeeps(p, timed, h.past, true);
      }
      var learned := if h.t.latency != 0 then Recorded(p, timed, true) else timed;
      BackoffKeeps(p, learned, Note(h.t, h.past, e));
  }

  lemma {:induction false} BackoffKeeps(p: Policy, t: Timing, past: seq<nat>)
    requires Inv(p, History(t, past))
    ensures Inv(p, History(BackedOff(p, t), past))
  {
    hide Margin, Place;
  }

  lemma {:induction false} RunKeeps(p: Policy, es: seq<Event>)
    requires PolicyOk(p)
    ensures Inv(p, RunAll(p, es))
  {
    hide Step, Margin;
    if es != [] {
      RunKeeps(p, es[..|es| - 1]);
      StepKeeps(p, RunAll(p, es[..|es| - 1]), es[|es| - 1]);
    }
  }

  /** At a fixed limit and mode, after every run of exchanges, replies in time,
      late replies and silences, and however long the line has been idle: the
      window of the next exchange is at most the limit, and at least half as
      long again (AT2: a quarter) as the latency of each of the last sixteen
      exchanges with a reply, as far as the limit lets it. */
  lemma {:induction false} WindowAllows(p: Policy, es: seq<Event>, nowUs: int, i: nat)
    requires PolicyOk(p) && Recent(RunAll(p, es).past, i)
    ensures var w, latency := RunAll(p, es + [Begin(nowUs)]).t.window, RunAll(p, es).past[i];
            w <= p.limit && (w < p.limit ==> if p.aggressive then 4 * w >= 5 * latency else 2 * w >= 3 * latency)
  {
    hide Margin, Place, Window;
    assert (es + [Begin(nowUs)])[..|es|] == es;
    RunKeeps(p, es);
    var h := RunAll(p, es);
    WindowBounds(p, h.t.estimate, h.t.lastUs, nowUs);
    RecentCounted(p, h, i);
    assert Margin(p, h.t.samples[Place(i)]) <= h.t.estimate;
    MarginCaps(p, h.past[i]);
    MarginMeans(p, h.past[i]);
  }

  lemma {:induction false} RecentCounted(p: Policy, h: History, i: nat)
    requires TimingOk(h.t) && Remembers(p, h.t, h.past) && Recent(h.past, i)
    ensures Place(i) < h.t.count
  {
  }

  // ---- How long an exchange stays open ----

  /** What the events have said of the exchange that is open: none begun yet, or
      how long each reply since its beginning keeps it open, and the longest. */
  datatype Open = Open(begun: bool, waits: seq<nat>, longest: nat)

  /** A reply counts as at least one millisecond, and keeps the exchange open for
      another limit, or for three seconds if it announces a later one. */
  ghost function Heard(p: Policy, o: Open, ms: nat, pending: bool): (o': Open) {
    var counted := if ms == 0 then 1 else ms;
    o.(waits := o.waits + [counted + if pending then 3000 else p.limit], longest := Max(o.longest, counted))
  }

  ghost function OpenAfter(p: Policy, es: seq<Event>): (o: Open) {
    if es == [] then Open(false, [], 0)
    else
      var was := OpenAfter(p, es[..|es| - 1]);
      match es[|es| - 1]
      case Begin(_) => Open(true, [], 0)
      case Reply(ms, pending) => Heard(p, was, ms, pending)
      case LateReply(ms, pending) =>
        if 0 < ms <= RunAll(p, es[..|es| - 1]).t.deadline then Heard(p, was, ms, pending) else was
      case Finish(_, _) => was
  }

  lemma {:induction false} PeakGrows(s: seq<nat>, n: nat)
    ensures Peak(s + [n]) == Max(Peak(s), n)
  {
    assert (s + [n])[..|s|] == s;
  }

  /** After every run the exchange stays open exactly as long as the limit and
      its replies ask for: no reply, and no ordinary reply behind a pending one,
      ever shortens the wait. And its latency is that of its longest reply. */
  lemma {:induction false} DeadlineIsLongestWait(p: Policy, es: seq<Event>)
    ensures var o := OpenAfter(p, es);
            && RunAll(p, es).t.deadline == Max(if o.begun then p.limit else 0, Peak(o.waits))
            && RunAll(p, es).t.latency == o.longest
  {
    hide Step, Note, Peak;
    if es == [] {
      NoWaits();
    } else {
      var n := |es| - 1;
      DeadlineIsLongestWait(p, es[..n]);
      DeadlineStep(p, RunAll(p, es[..n]).t, es[n]);
      NoWaits();
      if es[n].Reply? || es[n].LateReply? {
        var o := OpenAfter(p, es[..n]);
        PeakGrows(o.waits, Heard(p, o, es[n].ms, es[n].pending).waits[|o.waits|]);
      }
    }
  }

  lemma {:induction false} NoWaits()
    ensures Peak([]) == 0
  {
  }

  lemma {:induction false} DeadlineStep(p: Policy, t: Timing, e: Event)
    requires TimingOk(t)
    ensures Step(p, t, e).deadline ==
      match e
      case Begin(_) => p.limit
      case Reply(ms, pending) => Max(t.deadline, Until(p, ms, pending))
      case LateReply(ms, pending) => if InTime(t, ms) then Max(t.deadline, Until(p, ms, pending)) else t.deadline
      case Finish(_, _) => t.deadline
    ensures Step(p, t, e).latency ==
      match e
      case Begin(_) => 0
      case Reply(ms, _) => Max(t.latency, Max(ms, 1))
      case LateReply(ms, _) => if InTime(t, ms) then Max(t.latency, ms) else t.latency
      case Finish(_, _) => t.latency
  {
    hide Recorded, Window, Until;
    match e
    case Begin(_) =>
    case Reply(_, _) =>
    case LateReply(ms, pending) => RecordedDeadline(p, Replied(p, t, ms, pending), false);
    case Finish(now, _) => RecordedDeadline(p, t.(lastUs := now), true);
  }

  lemma {:induction false} RecordedDeadline(p: Policy, t: Timing, shrink: bool)
    requires TimingOk(t)
    ensures Recorded(p, t, shrink).deadline == t.deadline && Recorded(p, t, shrink).latency == t.latency
  {
  }

  // ---- What an exchange teaches ----

  /** The samples with this exchange's own in its place. */
  ghost predicate Learned(p: Policy, t: Timing, longest: nat, r: Timing)
    requires TimingOk(t) && TimingOk(r)
  {
    && r.slot == Slot(if t.slot.Slot? then t.slot.i else t.next)
    && r.count == (if t.slot.Slot? then t.count else Min(t.count + 1, 16))
    && r.samples[r.slot.i] == Min(longest, p.limit)
    && forall k :: 0 <= k < 16 && k != r.slot.i ==> r.samples[k] == t.samples[k]
  }

  /** In every run, at the end of an exchange: without a reply nothing is learned
      but that the window was too short, and it doubles, up to the limit; with one,
      the exchange's longest is learned and the estimate moves towards the target
      of the samples; and if the answer was not complete, it also doubles. */
  lemma {:induction false} FinishExactly(p: Policy, es: seq<Event>, nowUs: int, incomplete: bool)
    ensures var t, o := RunAll(p, es).t, OpenAfter(p, es);
            var r := RunAll(p, es + [Finish(nowUs, incomplete)]).t;
            var twice := Min(2 * t.window, p.limit);
            && r.lastUs == nowUs
            && if o.longest == 0 then r == t.(lastUs := nowUs, estimate := Max(t.estimate, twice))
               else
                 && Learned(p, t, o.longest, r)
                 && var estimate := Updated(t.estimate, Target(p, r.samples[..r.count]), true);
                    r.estimate == if incomplete then Max(estimate, twice) else estimate
  {
    hide Target, Updated;
    assert (es + [Finish(nowUs, incomplete)])[..|es|] == es;
    DeadlineIsLongestWait(p, es);
    var t := RunAll(p, es).t;
    if t.latency != 0 {
      RecordedLearns(p, t.(lastUs := nowUs), true);
    }
  }

  lemma {:induction false} RecordedLearns(p: Policy, t: Timing, shrink: bool)
    requires TimingOk(t)
    ensures var r := Recorded(p, t, shrink);
            && Learned(p, t, t.latency, r) && r.estimate == Updated(t.estimate, Target(p, r.samples[..r.count]), shrink)
            && r.window == t.window && r.lastUs == t.lastUs
  {
    hide Target, Updated;
  }

  /** A late reply teaches its exchange again, and never shortens the estimate. */
  lemma {:induction false} LateExactly(p: Policy, es: seq<Event>, ms: nat, pending: bool)
    ensures var t := RunAll(p, es).t;
            var r := RunAll(p, es + [LateReply(ms, pending)]).t;
            if 0 < ms <= t.deadline then
              && Learned(p, t, OpenAfter(p, es + [LateReply(ms, pending)]).longest, r)
              && r.estimate == Updated(t.estimate, Target(p, r.samples[..r.count]), false)
            else r == t
  {
    hide Target, Updated;
    assert (es + [LateReply(ms, pending)])[..|es|] == es;
    DeadlineIsLongestWait(p, es);
    var t := RunAll(p, es).t;
    if 0 < ms <= t.deadline {
      RecordedLearns(p, Replied(p, t, ms, pending), false);
    }
  }

  /** And the next exchange waits for its window. */
  lemma {:induction false} BeginExactly(p: Policy, es: seq<Event>, nowUs: int)
    ensures var t := RunAll(p, es).t;
            var r := RunAll(p, es + [Begin(nowUs)]).t;
            r == t.(window := Window(p, t.estimate, t.lastUs, nowUs), latency := 0, deadline := p.limit, slot := NoSlot)
  {
    assert (es + [Begin(nowUs)])[..|es|] == es;
  }

  // ---- A line that answers alike ----

  /** One exchange with replies of at most `ms`, begun and finished at these times. */
  ghost function Exchanged(p: Policy, t: Timing, ms: nat, from: int, to: int): (r: Timing)
    requires TimingOk(t)
    ensures TimingOk(r)
  {
    Finished(p, Replied(p, Begun(p, t, from), ms, false), to, false)
  }

  ghost function AllExchanged(p: Policy, t: Timing, ms: nat, times: seq<(int, int)>): (r: Timing)
    requires TimingOk(t)
    ensures TimingOk(r)
  {
    if times == [] then t
    else
      var n := |times| - 1;
      Exchanged(p, AllExchanged(p, t, ms, times[..n]), ms, times[n].0, times[n].1)
  }

  /** What such a line needs: 4 ms more than it takes, and its margin. */
  ghost function Steady(p: Policy, ms: nat): (w: nat)
    requires PolicyOk(p)
    ensures 0 < w <= p.limit
  {
    Min(Max(Min(ms, p.limit) + 4, Margin(p, ms)), p.limit)
  }

  ghost predicate AllAlike(s: seq<nat>, x: nat) { forall k :: 0 <= k < |s| ==> s[k] == x }

  lemma {:induction false} TargetOfAlike(p: Policy, s: seq<nat>, ms: nat)
    requires PolicyOk(p) && s != [] && AllAlike(s, Min(ms, p.limit))
    ensures Target(p, s) == Steady(p, ms)
  {
    hide Margin, CeilDiv;
    var x := Min(ms, p.limit);
    SumOfAlike(s, x);
    Quotient(|s|, x);
    SpreadOfAlike(s, x);
    Quotient(|s|, 0);
    MarginCaps(p, ms);
  }

  lemma {:induction false} Quotient(n: nat, q: nat)
    requires n > 0
    ensures CeilDiv(n * q, n) == q
  {
    hide CeilDiv;
    var r := CeilDiv(n * q, n);
    Times(n, q - r);
    assert n * (q - r) == n * q - n * r;
  }

  lemma {:induction false} SumOfAlike(s: seq<nat>, x: nat)
    requires AllAlike(s, x)
    ensures Sum(s) == |s| * x && Peak(s) == if s == [] then 0 else x
  {
    if s != [] {
      SumOfAlike(s[..|s| - 1], x);
    }
  }

  lemma {:induction false} SpreadOfAlike(s: seq<nat>, x: nat)
    requires AllAlike(s, x)
    ensures Spread(s, x) == 0
  {
    if s != [] {
      SpreadOfAlike(s[..|s| - 1], x);
    }
  }

  /** The last `n` places filled hold `x`. */
  ghost predicate Holds(t: Timing, n: nat, x: nat)
    requires TimingOk(t)
  {
    n <= t.count && forall d :: 1 <= d <= n ==> t.samples[Behind(t.next, d)] == x
  }

  function Behind(next: nat, d: nat): (k: nat)
    requires next < SAMPLES && 1 <= d <= SAMPLES
    ensures k < SAMPLES
  {
    if d <= next then next - d else next + SAMPLES - d
  }

  lemma {:induction false} ExchangeHolds(p: Policy, t: Timing, ms: nat, from: int, to: int, n: nat)
    requires TimingOk(t) && PolicyOk(p) && ms > 0 && n <= 16 && Holds(t, n, Min(ms, p.limit))
    ensures var r := Exchanged(p, t, ms, from, to);
            && Holds(r, Min(n + 1, 16), Min(ms, p.limit)) && r.count > 0
            && r.estimate == Updated(t.estimate, Target(p, r.samples[..r.count]), true)
  {
    hide Target, Updated, Window;
    var q := Replied(p, Begun(p, t, from), ms, false).(lastUs := to);
    var r := Exchanged(p, t, ms, from, to);
    assert r == Recorded(p, q, true);
    RecordedLearns(p, q, true);
    forall d | 1 <= d <= Min(n + 1, 16) ensures r.samples[Behind(r.next, d)] == Min(ms, p.limit) {
      if d > 1 {
        assert Behind(r.next, d) == Behind(t.next, d - 1);
      }
    }
  }

  /** With all sixteen places alike, the target is the steady one. */
  lemma {:induction false} SixteenAlike(p: Policy, t: Timing, ms: nat)
    requires TimingOk(t) && PolicyOk(p) && Holds(t, 16, Min(ms, p.limit))
    ensures t.count == 16 && Target(p, t.samples[..t.count]) == Steady(p, ms)
  {
    hide Target, Steady;
    forall k | 0 <= k < 16 ensures t.samples[..t.count][k] == Min(ms, p.limit) {
      var d := if k < t.next then t.next - k else t.next + 16 - k;
      assert Behind(t.next, d) == k;
    }
    TargetOfAlike(p, t.samples[..t.count], ms);
  }

  /** Whatever went before, a line that answers alike is learned: after sixteen
      exchanges, and then as many as the estimate is off, the estimate is what it
      needs, and so is the window of an exchange begun within a second, which is
      shorter than the limit if that is. */
  lemma {:induction false} LearnsSteadyLine(p: Policy, t: Timing, ms: nat, times: seq<(int, int)>, nowUs: int)
    requires TimingOk(t) && PolicyOk(p) && ms > 0 && t.estimate <= p.limit
    requires |times| >= 16 + p.limit && nowUs - times[|times| - 1].1 < 1_001_000
    ensures var r := AllExchanged(p, t, ms, times);
            r.estimate == Steady(p, ms) && Begun(p, r, nowUs).window == Steady(p, ms)
  {
    hide Steady, Exchanged, Window;
    Settles(p, t, ms, times);
    var r := AllExchanged(p, t, ms, times);
    assert r.lastUs == times[|times| - 1].1 by {
      var n := |times| - 1;
      LastOfExchange(p, AllExchanged(p, t, ms, times[..n]), ms, times[n].0, times[n].1);
    }
    WindowExactly(p, r.estimate, r.lastUs, nowUs);
  }

  lemma {:induction false} LastOfExchange(p: Policy, t: Timing, ms: nat, from: int, to: int)
    requires TimingOk(t) && ms > 0
    ensures Exchanged(p, t, ms, from, to).lastUs == to
  {
    hide Target, Window;
  }

  lemma {:induction false} Settles(p: Policy, t: Timing, ms: nat, times: seq<(int, int)>)
    requires TimingOk(t) && PolicyOk(p) && ms > 0 && t.estimate <= p.limit
    ensures var r := AllExchanged(p, t, ms, times);
            && r.estimate <= p.limit && Holds(r, Min(|times|, 16), Min(ms, p.limit))
            && (|times| >= 16 ==> Steady(p, ms) <= r.estimate <= Steady(p, ms) + Max(0, p.limit - (|times| - 16)))
            && (|times| >= 16 + p.limit ==> r.estimate == Steady(p, ms))
  {
    hide Exchanged, Target, Steady, Window;
    if times != [] {
      var n := |times| - 1;
      var was := AllExchanged(p, t, ms, times[..n]);
      Settles(p, t, ms, times[..n]);
      ExchangeHolds(p, was, ms, times[n].0, times[n].1, Min(n, 16));
      var r := AllExchanged(p, t, ms, times);
      TargetCovers(p, r.samples[..r.count]);
      if |times| >= 16 {
        SixteenAlike(p, r, ms);
      }
    }
  }
}
