/** Periodic, repeat-until and repeat-while transmissions on the wrapping clock. */
module Scheduler {
  import opened Clock

  const SLOTS := 10

  datatype Kind = Periodic | Until | While

  datatype Job = Job(
    id: Time, kind: Kind, interval: Time, due: Time, ended: Time, created: Time, matchUs: Time,
    active: bool, pending: bool, transmissionEnded: bool, sent: bool, matched: bool, haveMatch: bool,
    matchFlags: Time, mask: seq<bv8>, pattern: seq<bv8>)

  /** The mask and the pattern have `match_len` bytes, at most 12. */
  predicate JobValid(j: Job) { |j.mask| == |j.pattern| <= 12 }

  predicate Matches(j: Job, data: seq<bv8>, flags: Time)
    requires JobValid(j)
  {
    && |data| >= |j.mask| && flags == j.matchFlags
    && forall i :: 0 <= i < |j.mask| ==> data[i] & j.mask[i] == j.pattern[i]
  }

  /** Bit `k` of a byte, counted from the lowest. */
  predicate BitSet(x: bv8, k: nat)
    requires k < 8
  {
    if k == 0 then x & 0x01 != 0 else if k == 1 then x & 0x02 != 0
    else if k == 2 then x & 0x04 != 0 else if k == 3 then x & 0x08 != 0
    else if k == 4 then x & 0x10 != 0 else if k == 5 then x & 0x20 != 0
    else if k == 6 then x & 0x40 != 0 else x & 0x80 != 0
  }

  /** The byte has the pattern's bits wherever the mask has one; a pattern with a
      bit outside the mask fits nothing. */
  ghost predicate ByteFits(data: bv8, mask: bv8, pattern: bv8) {
    forall k :: 0 <= k < 8 ==>
      if BitSet(mask, k) then BitSet(data, k) == BitSet(pattern, k) else !BitSet(pattern, k)
  }

  /** The frame the job looks for, bit by bit. */
  ghost predicate Wanted(j: Job, data: seq<bv8>, flags: Time)
    requires JobValid(j)
  {
    && |data| >= |j.mask| && flags == j.matchFlags
    && forall i :: 0 <= i < |j.mask| ==> ByteFits(data[i], j.mask[i], j.pattern[i])
  }

  lemma {:induction false} ByteFitsExactly(data: bv8, mask: bv8, pattern: bv8)
    ensures data & mask == pattern <==> ByteFits(data, mask, pattern)
  {
    if ByteFits(data, mask, pattern) {
      FitsAt(data, mask, pattern, 0);
      FitsAt(data, mask, pattern, 1);
      FitsAt(data, mask, pattern, 2);
      FitsAt(data, mask, pattern, 3);
      FitsAt(data, mask, pattern, 4);
      FitsAt(data, mask, pattern, 5);
      FitsAt(data, mask, pattern, 6);
      FitsAt(data, mask, pattern, 7);
      SameByte(data & mask, pattern);
    }
    if data & mask == pattern {
      forall k | 0 <= k < 8
        ensures if BitSet(mask, k) then BitSet(data, k) == BitSet(pattern, k) else !BitSet(pattern, k)
      {
      }
    }
  }

  lemma {:induction false} FitsAt(data: bv8, mask: bv8, pattern: bv8, k: nat)
    requires k < 8 && ByteFits(data, mask, pattern)
    ensures BitSet(data & mask, k) == BitSet(pattern, k)
  {
    assert if BitSet(mask, k) then BitSet(data, k) == BitSet(pattern, k) else !BitSet(pattern, k);
  }

  lemma {:induction false} SameByte(x: bv8, y: bv8)
    requires BitSet(x, 0) == BitSet(y, 0) && BitSet(x, 1) == BitSet(y, 1) && BitSet(x, 2) == BitSet(y, 2)
    requires BitSet(x, 3) == BitSet(y, 3) && BitSet(x, 4) == BitSet(y, 4) && BitSet(x, 5) == BitSet(y, 5)
    requires BitSet(x, 6) == BitSet(y, 6) && BitSet(x, 7) == BitSet(y, 7)
    ensures x == y
  {
  }

  /** A frame matches exactly if it has every masked bit of the pattern. */
  lemma {:induction false} MatchesExactly(j: Job, data: seq<bv8>, flags: Time)
    requires JobValid(j)
    ensures Matches(j, data, flags) <==> Wanted(j, data, flags)
  {
    hide ByteFits;
    forall i | 0 <= i < |j.mask| <= |data|
      ensures data[i] & j.mask[i] == j.pattern[i] <==> ByteFits(data[i], j.mask[i], j.pattern[i])
    {
      ByteFitsExactly(data[i], j.mask[i], j.pattern[i]);
    }
  }

  /** Under a mask of all ones the pattern is what the frame begins with. */
  lemma {:induction false} FullMaskIsPrefix(j: Job, data: seq<bv8>, flags: Time)
    requires JobValid(j) && forall i :: 0 <= i < |j.mask| ==> j.mask[i] == 0xFF
    ensures Wanted(j, data, flags) <==> flags == j.matchFlags && j.pattern <= data
  {
    hide ByteFits;
    MatchesExactly(j, data, flags);
    forall i | 0 <= i < |j.mask| <= |data| ensures data[i] & j.mask[i] == data[i] {
      AllOnes(data[i]);
    }
    if j.pattern <= data {
      forall i | 0 <= i < |j.mask| ensures data[i] == j.pattern[i] {}
    }
  }

  lemma {:induction false} AllOnes(x: bv8)
    ensures x & 0xFF == x
  {
  }

  // ---- What each call does to one job ----

  /** The match lies between the end of the last transmission and the due time. */
  predicate InWindow(t: Time, ended: Time, due: Time) { AtOrAfter(t, ended) && AtOrAfter(due, t) }

  function Received(j: Job, data: seq<bv8>, flags: Time, stamp: Time): (r: Job)
    requires JobValid(j)
  {
    if !j.active || !AtOrAfter(stamp, j.created) then j
    else if j.kind.Periodic? then (if Matches(j, data, flags) then Noted(j, stamp) else j)
    else if j.kind.Until? == Matches(j, data, flags) then j.(active := false)
    else if j.kind.While? then Noted(j, stamp)
    else j
  }

  /** A match is remembered, and counts if it is in the current window. */
  function Noted(j: Job, stamp: Time): (r: Job) {
    j.(haveMatch := true, matchUs := stamp,
       matched := j.matched || (j.sent && InWindow(stamp, j.ended, j.due)))
  }

  function Expired(j: Job, now: Time): (r: Job) {
    if j.active && j.kind.While? && j.sent && (!j.pending || j.transmissionEnded) && !j.matched
       && AtOrAfter(now, j.due)
    then j.(active := false) else j
  }

  function Transmitted(j: Job, started: Time, ended: Time): (r: Job) {
    if j.transmissionEnded && j.ended == ended then j
    else
      var due := Later(if j.kind.Periodic? then started else ended, j.interval);
      j.(transmissionEnded := true, sent := true, ended := ended, due := due,
         matched := j.haveMatch && InWindow(j.matchUs, ended, due))
  }

  function Deferred(j: Job): (r: Job) { j.(pending := false) }

  function Completed(j: Job, success: bool, started: Time, ended: Time): (r: Job) {
    if !success && !j.kind.Periodic? then j.(pending := false, active := false)
    else Transmitted(j.(pending := false), started, ended)
  }

  function Lost(j: Job): (r: Job) { j.(active := false) }

  /** `submit_scheduled`: the job's message has been handed to the bus. */
  function Submitted(j: Job): (r: Job) { j.(pending := true, transmissionEnded := false) }

  // ---- The table of jobs ----

  predicate Eligible(j: Job, now: Time, allowRepeat: bool) {
    j.active && !j.pending && AtOrAfter(now, j.due) && (allowRepeat || j.kind.Periodic?)
  }

  /** The comparison of the source: earlier due, then smaller id. */
  predicate Before(a: Job, b: Job) {
    SignedDiff(a.due, b.due) < 0 || (a.due == b.due && SignedDiff(a.id, b.id) < 0)
  }

  /** How long the job has been due. */
  function Age(j: Job, now: Time): (age: int) { SignedDiff(now, j.due) }

  /** Ids handed out within half a wrap of `base`, and the order they came in. */
  predicate Near(id: Time, base: Time) { SignedDiff(id, base) >= 0 }
  function Rank(id: Time, base: Time): (n: int) { SignedDiff(id, base) }

  /** The ids of the eligible jobs were handed out within half a wrap of `base`. */
  ghost predicate AllNear(jobs: seq<Job>, now: Time, allowRepeat: bool, base: Time) {
    forall i :: 0 <= i < |jobs| && Eligible(jobs[i], now, allowRepeat) ==> Near(jobs[i].id, base)
  }

  lemma {:induction false} DiffOfDiffs(a: Time, b: Time, c: Time)
    requires 0 <= SignedDiff(a, c) && 0 <= SignedDiff(b, c)
    ensures SignedDiff(a, b) == SignedDiff(a, c) - SignedDiff(b, c)
  {
    var x, y := SignedDiff(a, c), SignedDiff(b, c);
    assert Reading(c + x) == a && Reading(c + y) == b;
    ReadingsCompare(c + x, c + y);
  }

  lemma {:induction false} DiffFlipped(a: Time, b: Time, c: Time)
    requires 0 <= SignedDiff(c, a) && 0 <= SignedDiff(c, b)
    ensures SignedDiff(a, b) == SignedDiff(c, b) - SignedDiff(c, a)
  {
    var x, y := SignedDiff(c, a), SignedDiff(c, b);
    assert Reading(a + x) == c && Reading(b + y) == c;
    ReadBack(a, x, c);
    ReadBack(b, y, c);
    ReadingsCompare(c - x, c - y);
  }

  lemma {:induction false} ReadBack(a: Time, x: int, c: Time)
    requires Reading(a + x) == c
    ensures Reading(c - x) == a
  {
    var k := (a + x) / WRAP;
    assert a + x == c + k * WRAP;
    ModShift(c - x, k);
    assert a % WRAP == a;
  }

  /** Among eligible jobs the wrapped comparison is a true order: by how long
      they have been due, and among equals by the order of their ids. */
  lemma {:induction false} BeforeIsAge(a: Job, b: Job, now: Time)
    requires AtOrAfter(now, a.due) && AtOrAfter(now, b.due)
    ensures SignedDiff(a.due, b.due) < 0 <==> Age(a, now) > Age(b, now)
    ensures a.due == b.due <==> Age(a, now) == Age(b, now)
  {
    DiffFlipped(a.due, b.due, now);
  }

  lemma {:induction false} BeforeIsRank(a: Job, b: Job, base: Time)
    requires Near(a.id, base) && Near(b.id, base)
    ensures SignedDiff(a.id, b.id) < 0 <==> Rank(a.id, base) < Rank(b.id, base)
  {
    DiffOfDiffs(a.id, b.id, base);
  }

  /** `best` has been due at least as long as `j`, and for ids handed out within
      half a wrap no job due as long has an earlier one. */
  ghost predicate NotAfter(best: Job, j: Job, now: Time, base: Time) {
    && Age(best, now) >= Age(j, now)
    && (Near(best.id, base) && Near(j.id, base) && Age(best, now) == Age(j, now) ==>
          Rank(best.id, base) <= Rank(j.id, base))
  }

  /** One comparison of the scan keeps what `best` promises. */
  lemma {:induction false} ScanStep(best: Job, j: Job, old0: Job, now: Time, base: Time)
    requires AtOrAfter(now, best.due) && AtOrAfter(now, j.due) && AtOrAfter(now, old0.due)
    ensures Before(j, best) ==> NotAfter(j, best, now, base)
    ensures !Before(j, best) ==> NotAfter(best, j, now, base)
    ensures (Before(j, best) && NotAfter(best, old0, now, base)
             && Near(j.id, base) && Near(best.id, base) && Near(old0.id, base)) ==> NotAfter(j, old0, now, base)
    ensures Before(j, best) && Age(best, now) >= Age(old0, now) ==> Age(j, now) >= Age(old0, now)
  {
    BeforeIsAge(j, best, now);
    if Near(j.id, base) && Near(best.id, base) {
      BeforeIsRank(j, best, base);
    }
  }

  class Table {
    const jobs: array<Job>

    ghost predicate Valid()
      reads this, jobs
    {
      jobs.Length == 20 && forall i :: 0 <= i < jobs.Length ==> JobValid(jobs[i])
    }

    constructor (empty: Job)
      requires JobValid(empty)
      ensures Valid() && fresh(jobs)
      ensures forall i :: 0 <= i < jobs.Length ==> jobs[i] == empty
    {
      jobs := new Job[2 * SLOTS](_ => empty);
    }

    /** `j2534_schedule_next`: -1 stands for no job. */
    method Next(now: Time, allowRepeat: bool, ghost base: Time) returns (next: int)
      requires Valid()
      ensures -1 <= next < jobs.Length
      ensures next == -1 <==> forall i :: 0 <= i < jobs.Length ==> !Eligible(jobs[i], now, allowRepeat)
      ensures next >= 0 ==> Eligible(jobs[next], now, allowRepeat)
      ensures next >= 0 ==> forall i :: 0 <= i < jobs.Length && Eligible(jobs[i], now, allowRepeat) ==>
        Age(jobs[next], now) >= Age(jobs[i], now)
      ensures next >= 0 && AllNear(jobs[..], now, allowRepeat, base) ==>
        forall i :: 0 <= i < jobs.Length && Eligible(jobs[i], now, allowRepeat) ==>
          NotAfter(jobs[next], jobs[i], now, base)
    {
      next := -1;
      for i := 0 to jobs.Length
        invariant -1 <= next < i
        invariant next == -1 <==> forall k :: 0 <= k < i ==> !Eligible(jobs[k], now, allowRepeat)
        invariant next >= 0 ==> Eligible(jobs[next], now, allowRepeat)
        invariant next >= 0 ==> forall k :: 0 <= k < i && Eligible(jobs[k], now, allowRepeat) ==>
          Age(jobs[next], now) >= Age(jobs[k], now)
        invariant next >= 0 && AllNear(jobs[..], now, allowRepeat, base) ==>
          forall k :: 0 <= k < i && Eligible(jobs[k], now, allowRepeat) ==>
            NotAfter(jobs[next], jobs[k], now, base)
      {
        var job := jobs[i];
        if !job.active || job.pending || !AtOrAfter(now, job.due) || (!allowRepeat && !job.kind.Periodic?) {
          continue;
        }
        if next >= 0 {
          forall k | 0 <= k < i && Eligible(jobs[k], now, allowRepeat)
            ensures Before(job, jobs[next]) ==> NotAfter(job, jobs[next], now, base)
            ensures !Before(job, jobs[next]) ==> NotAfter(jobs[next], job, now, base)
            ensures (Before(job, jobs[next]) && NotAfter(jobs[next], jobs[k], now, base)
                     && Near(job.id, base) && Near(jobs[next].id, base) && Near(jobs[k].id, base)) ==>
              NotAfter(job, jobs[k], now, base)
            ensures (Before(job, jobs[next]) && Age(jobs[next], now) >= Age(jobs[k], now)) ==>
              Age(job, now) >= Age(jobs[k], now)
          {
            ScanStep(jobs[next], job, jobs[k], now, base);
          }
        }
        if next < 0 || Before(job, jobs[next]) {
          next := i;
        }
      }
    }

    /** `j2534_schedule_receive`. */
    method Receive(data: seq<bv8>, flags: Time, stamp: Time)
      requires Valid()
      modifies jobs
      ensures Valid()
      ensures forall i :: 0 <= i < 10 ==> jobs[i] == old(jobs[i])
      ensures forall i :: 10 <= i < jobs.Length ==> jobs[i] == Received(old(jobs[i]), data, flags, stamp)
    {
      for i := SLOTS to jobs.Length
        invariant Valid()
        invariant forall k :: 0 <= k < SLOTS || i <= k < jobs.Length ==> jobs[k] == old(jobs[k])
        invariant forall k :: SLOTS <= k < i ==> jobs[k] == Received(old(jobs[k]), data, flags, stamp)
      {
        var job := jobs[i];
        if !job.active || !AtOrAfter(stamp, job.created) {
          continue;
        }
        var match_ := Matches(job, data, flags);
        if (job.kind.Until? && match_) || (job.kind.While? && !match_) {
          jobs[i] := job.(active := false);
        } else if match_ {
          job := job.(haveMatch := true, matchUs := stamp);
          if job.sent && AtOrAfter(stamp, job.ended) && AtOrAfter(job.due, stamp) {
            job := job.(matched := true);
          }
          jobs[i] := job;
        }
      }
    }

    /** `j2534_schedule_expire`. */
    method Expire(now: Time)
      requires Valid()
      modifies jobs
      ensures Valid()
      ensures forall i :: 0 <= i < 10 ==> jobs[i] == old(jobs[i])
      ensures forall i :: 10 <= i < jobs.Length ==> jobs[i] == Expired(old(jobs[i]), now)
    {
      for i := SLOTS to jobs.Length
        invariant Valid()
        invariant forall k :: 0 <= k < SLOTS || i <= k < jobs.Length ==> jobs[k] == old(jobs[k])
        invariant forall k :: SLOTS <= k < i ==> jobs[k] == Expired(old(jobs[k]), now)
      {
        var job := jobs[i];
        if job.active && job.kind.While? && job.sent && (!job.pending || job.transmissionEnded)
           && !job.matched && AtOrAfter(now, job.due) {
          jobs[i] := job.(active := false);
        }
      }
    }

    /** `j2534_schedule_receive_lost`. */
    method ReceiveLost()
      requires Valid()
      modifies jobs
      ensures Valid()
      ensures forall i :: 0 <= i < 10 ==> jobs[i] == old(jobs[i])
      ensures forall i :: 10 <= i < jobs.Length ==> jobs[i] == Lost(old(jobs[i]))
    {
      for i := SLOTS to jobs.Length
        invariant Valid()
        invariant forall k :: 0 <= k < SLOTS || i <= k < jobs.Length ==> jobs[k] == old(jobs[k])
        invariant forall k :: SLOTS <= k < i ==> jobs[k] == Lost(old(jobs[k]))
      {
        jobs[i] := jobs[i].(active := false);
      }
    }

    /** `j2534_schedule_complete` on the job in slot `i`. */
    method Complete(i: nat, success: bool, started: Time, ended: Time)
      requires Valid() && i < jobs.Length
      modifies jobs
      ensures Valid()
      ensures jobs[i] == Completed(old(jobs[i]), success, started, ended)
      ensures forall k :: 0 <= k < jobs.Length && k != i ==> jobs[k] == old(jobs[k])
    {
      var job := jobs[i].(pending := false);
      if !success && !job.kind.Periodic? {
        jobs[i] := job.(active := false);
        return;
      }
      jobs[i] := job;
      ReportTransmitted(i, started, ended);
    }

    /** `j2534_schedule_transmitted` on the job in slot `i`. */
    method ReportTransmitted(i: nat, started: Time, ended: Time)
      requires Valid() && i < jobs.Length
      modifies jobs
      ensures Valid()
      ensures jobs[i] == Transmitted(old(jobs[i]), started, ended)
      ensures forall k :: 0 <= k < jobs.Length && k != i ==> jobs[k] == old(jobs[k])
    {
      var job := jobs[i];
      if job.transmissionEnded && job.ended == ended {
        return;
      }
      job := job.(transmissionEnded := true, sent := true, ended := ended);
      job := job.(due := Later(if job.kind.Periodic? then started else ended, job.interval));
      job := job.(matched := job.haveMatch && AtOrAfter(job.matchUs, ended) && AtOrAfter(job.due, job.matchUs));
      jobs[i] := job;
    }
  }

  // ---- Laws of the frames ----

  /** An active job that was there before the frame: it ends a repeat-until job if
      it is wanted and a repeat-while job if not; any other wanted frame is
      remembered, and counts if the job waits for it now. */
  lemma {:induction false} ReceivedExactly(j: Job, data: seq<bv8>, flags: Time, stamp: Time)
    requires JobValid(j)
    ensures var r := Received(j, data, flags, stamp);
            var wanted := Wanted(j, data, flags);
            if !j.active || !AtOrAfter(stamp, j.created) then r == j
            else if (j.kind.Until? && wanted) || (j.kind.While? && !wanted) then r == j.(active := false)
            else if !wanted then r == j
            else
              r == j.(haveMatch := true, matchUs := stamp,
                      matched := j.matched || (j.sent && AtOrAfter(stamp, j.ended) && AtOrAfter(j.due, stamp)))
  {
    MatchesExactly(j, data, flags);
    hide Wanted, Matches, AtOrAfter;
  }

  // ---- Laws of the reports ----

  /** Reporting the end of a transmission again changes nothing. */
  lemma {:induction false} ReportTwice(j: Job, started: Time, ended: Time, again: Time)
    ensures Transmitted(Transmitted(j, started, ended), again, ended) == Transmitted(j, started, ended)
    ensures Completed(Transmitted(j, started, ended), true, again, ended)
         == Transmitted(j, started, ended).(pending := false)
  {
  }

  /** A matching frame and the report of the end may be processed in either
      order exactly when an earlier remembered match does not count in the new
      window or the frame counts in it too. */
  lemma {:induction false} MatchAndEndCommute(j: Job, data: seq<bv8>, flags: Time, stamp: Time, started: Time,
                                              ended: Time)
    requires JobValid(j) && j.kind.While? && j.active && AtOrAfter(stamp, j.created)
    requires Matches(j, data, flags) && !(j.transmissionEnded && j.ended == ended)
    ensures var due := Later(ended, j.interval);
            Transmitted(Received(j, data, flags, stamp), started, ended)
              == Received(Transmitted(j, started, ended), data, flags, stamp)
            <==> ((j.haveMatch && InWindow(j.matchUs, ended, due)) ==> InWindow(stamp, ended, due))
  {
    var first := Transmitted(Received(j, data, flags, stamp), started, ended);
    var second := Received(Transmitted(j, started, ended), data, flags, stamp);
    var due := Later(ended, j.interval);
    assert first == second.(matched := InWindow(stamp, ended, due));
    assert second.matched == ((j.haveMatch && InWindow(j.matchUs, ended, due)) || InWindow(stamp, ended, due));
  }
}
