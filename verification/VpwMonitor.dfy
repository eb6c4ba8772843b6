/** The contention monitor: when a transmitting node looks at the bus, and what
    it concludes. Time is in microseconds from the rising edge of the SOF. */
module VpwMonitor {
  import opened J1850Crc
  import opened J1850Bits
  import opened J1850Capture
  import opened VpwCodec

  const GUARD := 12
  const SYNC_SLACK := 8
  const TAIL := GUARD + SYNC_SLACK
  const MAX_WATCH := 2

  /** `j1850_vpw_watch_offsets`. */
  function WatchOffsets(p: Pulse, head: nat, tail: nat, cap: nat): (offs: seq<nat>)
    ensures |offs| <= cap && |offs| <= 2
    ensures forall i :: 0 <= i < |offs| ==> !p.active && offs[i] + tail < p.us
    ensures |offs| == 2 ==> offs[0] < offs[1]
  {
    if p.active || p.us <= tail then []
    else
      var last := p.us - tail;
      var first: seq<nat> := if cap > 0 && head < last then [head] else [];
      if |first| < cap && TV1 + head < last then first + [TV1 + head] else first
  }

  /** A passive pulse is looked at `head` behind its rising edge to be, and again a
      short pulse (64 us) later, each time only with more than `tail` left, and no
      more often than there is room for. */
  lemma {:induction false} OffsetsExactly(p: Pulse, head: nat, tail: nat, cap: nat)
    ensures var first := if !p.active && p.us > head + tail then [head] else [];
            var second := if !p.active && p.us > 64 + head + tail then [64 + head] else [];
            WatchOffsets(p, head, tail, cap) ==
              if cap == 0 then [] else if cap == 1 then first else first + second
  {
  }

  /** The monitor's own looks: 12 us into a pulse longer than 32 us, and 76 us into
      one longer than 96. */
  lemma {:induction false} OwnOffsets(p: Pulse)
    ensures WatchOffsets(p, GUARD, TAIL, MAX_WATCH) ==
      if p.active || p.us <= 32 then [] else if p.us <= 96 then [12] else [12, 76]
  {
  }

  /** The instants at which the owner of a train starting at `start` looks. */
  ghost function Samples(ps: seq<Pulse>, start: int): (s: seq<int>)
    decreases |ps|
  {
    if ps == [] then []
    else Shifted(WatchOffsets(ps[0], GUARD, TAIL, MAX_WATCH), start) + Samples(ps[1..], start + ps[0].us)
  }

  ghost function Shifted(offs: seq<nat>, start: int): (s: seq<int>)
    ensures |s| == |offs|
    ensures forall i :: 0 <= i < |s| ==> s[i] == start + offs[i]
  {
    seq(|offs|, i requires 0 <= i < |offs| => start + offs[i])
  }

  lemma {:induction false} ShiftedHead(offs: seq<nat>, n: nat, start: int, rest: seq<int>)
    requires n < |offs|
    ensures Shifted(offs[n..], start) + rest == [start + offs[n]] + (Shifted(offs[n + 1..], start) + rest)
  {
    assert Shifted(offs[n..], start) == [start + offs[n]] + Shifted(offs[n + 1..], start);
  }

  /** Strictly increasing, and all after `t`. */
  ghost predicate AscendingAfter(s: seq<int>, t: int) {
    && (forall i :: 0 <= i < |s| ==> t < s[i])
    && (forall i, j :: 0 <= i < j < |s| ==> s[i] < s[j])
  }

  lemma {:induction false} AscendingJoin(a: seq<int>, b: seq<int>, t: int, u: int)
    requires AscendingAfter(a, t) && AscendingAfter(b, u) && t <= u
    requires forall i :: 0 <= i < |a| ==> a[i] <= u
    ensures AscendingAfter(a + b, t)
  {
  }

  lemma {:induction false} SamplesAscend(ps: seq<Pulse>, start: int)
    ensures AscendingAfter(Samples(ps, start), start)
    decreases |ps|
  {
    if ps != [] {
      var next := start + ps[0].us;
      SamplesAscend(ps[1..], next);
      AscendingJoin(Shifted(WatchOffsets(ps[0], GUARD, TAIL, MAX_WATCH), start), Samples(ps[1..], next), start, next);
    }
  }

  lemma {:induction false} SamplesFrom(frame: seq<Octet>, k: nat, start: int)
    requires k <= PulseCount(|frame|)
    ensures Samples(Train(frame)[k..], start) ==
      if k == PulseCount(|frame|) then []
      else var p := PulseAt(frame, k);
           Shifted(WatchOffsets(p, GUARD, TAIL, MAX_WATCH), start) + Samples(Train(frame)[k + 1..], start + p.us)
  {
    if k < PulseCount(|frame|) {
      assert Train(frame)[k..][0] == PulseAt(frame, k);
      assert Train(frame)[k..][1..] == Train(frame)[k + 1..];
    }
  }

  datatype Alarm = NoAlarm | AlarmAt(t: int)

  /** The fields of `g.mon`. */
  class Monitor {
    const frame: seq<Octet>
    var pulse: nat
    var pulseStart: int
    var pulseEnd: int
    var offs: seq<nat>
    var nextOff: nat

    /** The pulse being watched lies at `pulseStart`, and `pulseEnd` bounds what
        a sample of it may be believed for. */
    ghost predicate Valid()
      reads this
    {
      && nextOff <= |offs|
      && (pulse < PulseCount(|frame|) ==>
            && pulseEnd == pulseStart + PulseAt(frame, pulse).us - 20
            && offs == WatchOffsets(PulseAt(frame, pulse), GUARD, TAIL, MAX_WATCH))
      && (pulse >= PulseCount(|frame|) ==> nextOff == |offs|)
    }

    /** Looks still to come: the rest of this pulse's and those of all later ones. */
    ghost function Pending(): (s: seq<int>)
      requires Valid()
      reads this
    {
      if pulse >= PulseCount(|frame|) then []
      else Shifted(offs[nextOff..], pulseStart)
           + Samples(Train(frame)[pulse + 1..], pulseStart + PulseAt(frame, pulse).us)
    }

    /** `mon_start`, once the falling edge that ends the SOF has been placed. */
    constructor (frame: seq<Octet>, edge: int)
      requires 0 < |frame| <= MAX_FRAME
      ensures Valid() && this.frame == frame
      ensures Pending() == Samples(Train(frame)[1..], edge)
    {
      var p := PulseAt(frame, 1);
      this.frame := frame;
      pulse, pulseStart, nextOff := 1, edge, 0;
      offs := WatchOffsets(p, GUARD, TAIL, MAX_WATCH);
      pulseEnd := edge + p.us - TAIL;
      new;
      SamplesFrom(frame, 1, edge);
      assert offs[0..] == offs;
    }

    /** Takes the next look of this pulse. */
    method TakeLook() returns (at: int)
      requires Valid() && nextOff < |offs|
      modifies this`nextOff
      ensures Valid() && nextOff == old(nextOff) + 1
      ensures old(Pending()) == [at] + Pending() && at < pulseEnd
    {
      hide Samples, PulseAt, Train, WatchOffsets, Shifted;
      at := pulseStart + offs[nextOff];
      ShiftedHead(offs, nextOff, pulseStart,
                  Samples(Train(frame)[pulse + 1..], pulseStart + PulseAt(frame, pulse).us));
      nextOff := nextOff + 1;
    }

    /** Moves on to the next pulse when this one has no look left. */
    method NextPulse()
      requires Valid() && nextOff == |offs| && pulse < PulseCount(|frame|)
      modifies this
      ensures Valid() && pulse == old(pulse) + 1 && Pending() == old(Pending())
    {
      hide Samples, PulseAt, Train, WatchOffsets;
      var us := PulseAt(frame, pulse).us;
      SamplesFrom(frame, pulse + 1, pulseStart + us);
      assert offs[nextOff..] == [];
      pulseStart := pulseStart + us;
      pulse := pulse + 1;
      offs, nextOff := [], 0;
      if pulse < PulseCount(|frame|) {
        var p := PulseAt(frame, pulse);
        offs := WatchOffsets(p, GUARD, TAIL, MAX_WATCH);
        pulseEnd := pulseStart + p.us - TAIL;
        assert offs[0..] == offs;
      }
    }

    /** `mon_schedule`: skips looks whose moment has passed, arms the next. */
    method Schedule(now: int) returns (alarm: Alarm)
      requires Valid()
      modifies this
      ensures Valid() && Armed(old(Pending()), now, alarm, Pending(), pulseEnd)
    {
      while true
        invariant Valid() && DropMissed(old(Pending()), now) == DropMissed(Pending(), now)
        decreases PulseCount(|frame|) - pulse, |offs| - nextOff
      {
        if nextOff < |offs| {
          ghost var before := Pending();
          var at := TakeLook();
          assert before[0] == at && before[1..] == Pending();
          if now < at {
            return AlarmAt(at);
          }
        } else {
          if pulse >= PulseCount(|frame|) {
            return NoAlarm;
          }
          NextPulse();
        }
      }
    }

    /** `watch_alarm`: a look that comes too late is not believed, one that
        finds the bus active ends the transmission, any other arms the next. */
    method OnAlarm(now: int, active: bool) returns (lost: bool, alarm: Alarm)
      requires Valid()
      modifies this
      ensures Valid()
      ensures lost <==> active && now < old(pulseEnd)
      ensures !lost ==> Armed(old(Pending()), now, alarm, Pending(), pulseEnd)
    {
      if now < pulseEnd && active {
        return true, NoAlarm;
      }
      lost := false;
      alarm := Schedule(now);
    }
  }

  /** Looks not yet missed at `now`. */
  ghost function DropMissed(s: seq<int>, now: int): (r: seq<int>) {
    if s == [] || now < s[0] then s else DropMissed(s[1..], now)
  }

  /** The alarm is set for the first look not missed, the others stay pending. */
  ghost predicate Armed(pending: seq<int>, now: int, alarm: Alarm, left: seq<int>, bound: int) {
    var due := DropMissed(pending, now);
    if due == [] then alarm.NoAlarm? && left == []
    else alarm == AlarmAt(due[0]) && left == due[1..] && now < due[0] < bound
  }

  /** The first look that finds the bus active, if any. */
  ghost predicate FirstSeen(s: seq<int>, bus: int -> bool, found: Alarm) {
    match found
    case NoAlarm => forall i :: 0 <= i < |s| ==> !bus(s[i])
    case AlarmAt(t) =>
      exists i :: 0 <= i < |s| && s[i] == t && bus(t) && forall j :: 0 <= j < i ==> !bus(s[j])
  }

  /** A whole watched transmission with the alarm fired on time at every
      instant it was armed for: it is given up at exactly the first scheduled
      look that finds the bus active, and at none if there is none. */
  method Watch(frame: seq<Octet>, bus: int -> bool) returns (found: Alarm)
    requires 0 < |frame| <= MAX_FRAME
    ensures FirstSeen(Samples(Train(frame), 0), bus, found)
  {
    hide *;
    ghost var all := Samples(Train(frame), 0);
    var mon := new Monitor(frame, TV3);
    FirstSample(frame);
    ghost var i := 0;
    var alarm := mon.Schedule(TV3);
    FirstLook(frame, bus, alarm, mon.Pending(), mon.pulseEnd);
    while alarm.AlarmAt?
      invariant fresh(mon) && mon.Valid() && 0 <= i <= |all|
      invariant AtLook(all, i, alarm, mon.Pending(), mon.pulseEnd)
      invariant NoneSeen(all, i, bus)
      decreases |all| - i
    {
      var now := alarm.t;
      ghost var left := mon.Pending();
      AtAlarm(all, i, alarm, left, mon.pulseEnd);
      var lost;
      lost, alarm := mon.OnAlarm(now, bus(now));
      if lost {
        SeenHere(all, i, bus);
        return AlarmAt(now);
      }
      LookPassed(all, i, bus);
      StepsUp(frame, i);
      i := i + 1;
      NextLook(all, i, now, alarm, mon.Pending(), mon.pulseEnd);
    }
    NothingSeen(all, i, bus, alarm, mon.Pending(), mon.pulseEnd);
    return NoAlarm;
  }

  /** No look before `i` found the bus active. */
  ghost predicate NoneSeen(all: seq<int>, i: nat, bus: int -> bool)
    requires i <= |all|
  {
    forall j :: 0 <= j < i ==> !bus(all[j])
  }

  lemma {:induction false} LookPassed(all: seq<int>, i: nat, bus: int -> bool)
    requires i < |all| && NoneSeen(all, i, bus) && !bus(all[i])
    ensures NoneSeen(all, i + 1, bus)
  {
  }

  lemma {:induction false} SeenHere(all: seq<int>, i: nat, bus: int -> bool)
    requires i < |all| && NoneSeen(all, i, bus) && bus(all[i])
    ensures FirstSeen(all, bus, AlarmAt(all[i]))
  {
  }

  lemma {:induction false} NothingSeen(all: seq<int>, i: nat, bus: int -> bool, alarm: Alarm, left: seq<int>,
                                       bound: int)
    requires i <= |all| && NoneSeen(all, i, bus) && AtLook(all, i, alarm, left, bound) && alarm.NoAlarm?
    ensures FirstSeen(all, bus, NoAlarm)
  {
  }

  lemma {:induction false} AtAlarm(all: seq<int>, i: nat, alarm: Alarm, left: seq<int>, bound: int)
    requires i <= |all| && AtLook(all, i, alarm, left, bound) && alarm.AlarmAt?
    ensures i < |all| && alarm.t == all[i] && left == all[i + 1..] && all[i] < bound
  {
  }

  lemma {:induction false} StepsUp(frame: seq<Octet>, i: nat)
    requires i < |Samples(Train(frame), 0)|
    ensures var all := Samples(Train(frame), 0); i + 1 < |all| ==> all[i] < all[i + 1]
  {
    SamplesAscend(Train(frame), 0);
  }

  lemma {:induction false} FirstLook(frame: seq<Octet>, bus: int -> bool, alarm: Alarm, left: seq<int>, bound: int)
    requires Armed(Samples(Train(frame)[1..], TV3), TV3, alarm, left, bound)
    ensures AtLook(Samples(Train(frame), 0), 0, alarm, left, bound)
    ensures NoneSeen(Samples(Train(frame), 0), 0, bus)
  {
    var all := Samples(Train(frame), 0);
    FirstSample(frame);
    SamplesAscend(Train(frame)[1..], TV3);
    assert all[0..] == all;
    NextLook(all, 0, TV3, alarm, left, bound);
  }

  /** The alarm stands at look `i`, with the later ones pending. */
  ghost predicate AtLook(all: seq<int>, i: nat, alarm: Alarm, left: seq<int>, bound: int)
    requires i <= |all|
  {
    if i == |all| then alarm.NoAlarm?
    else alarm == AlarmAt(all[i]) && left == all[i + 1..] && all[i] < bound
  }

  /** An alarm armed on time misses nothing. */
  lemma {:induction false} NextLook(all: seq<int>, i: nat, now: int, alarm: Alarm, left: seq<int>, bound: int)
    requires i <= |all| && (i < |all| ==> now < all[i])
    requires Armed(all[i..], now, alarm, left, bound)
    ensures AtLook(all, i, alarm, left, bound)
  {
    if i < |all| {
      assert all[i..][0] == all[i] && all[i..][1..] == all[i + 1..];
    }
  }

  /** Nothing of the SOF itself is watched. */
  lemma {:induction false} FirstSample(frame: seq<Octet>)
    ensures Samples(Train(frame), 0) == Samples(Train(frame)[1..], TV3)
  {
    assert Train(frame)[0] == SOF;
    assert Shifted(WatchOffsets(SOF, GUARD, TAIL, MAX_WATCH), 0) == [];
  }
}
