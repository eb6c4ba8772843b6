/** Bitwise arbitration on the wired-OR bus (SAE J1850 clauses 6.7.2 and 7.1):
    two nodes that start together, each driving its own frame until its monitor
    finds the bus active against it. */
module VpwArbitration {
  import opened J1850Crc
  import opened J1850Bits
  import opened J1850Capture
  import opened VpwCodec
  import opened VpwMonitor
  import Round = VpwRoundTrip

  // ---- Waveforms ----

  /** The train drives the bus at `t`, counted from its own start. */
  ghost predicate Active(ps: seq<Pulse>, t: int)
    decreases |ps|
  {
    ps != [] && if t < ps[0].us then t >= 0 && ps[0].active else Active(ps[1..], t - ps[0].us)
  }

  lemma {:induction false} ActivePrepend(p: Pulse, ps: seq<Pulse>, t: int)
    ensures Active([p] + ps, t) == if t < p.us then t >= 0 && p.active else Active(ps, t - p.us)
  {
    assert ([p] + ps)[1..] == ps;
  }

  /** The owner of the train looks at the bus at `t`. */
  ghost predicate IsLook(ps: seq<Pulse>, t: int)
    decreases |ps|
  {
    && ps != []
    && (LookIn(ps[0], t) || IsLook(ps[1..], t - ps[0].us))
  }

  /** A look at distance `t` into this pulse. */
  ghost predicate LookIn(p: Pulse, t: int) {
    !p.active && ((t == 12 && p.us > 32) || (t == 76 && p.us > 96))
  }

  lemma {:induction false} LookPrepend(p: Pulse, ps: seq<Pulse>, t: int)
    ensures IsLook([p] + ps, t) <==> LookIn(p, t) || IsLook(ps, t - p.us)
  {
    assert ([p] + ps)[1..] == ps;
  }

  lemma {:induction false} LookInOffsets(p: Pulse, start: int, t: int)
    ensures t in Shifted(WatchOffsets(p, GUARD, TAIL, MAX_WATCH), start) <==> LookIn(p, t - start)
  {
    var offs := WatchOffsets(p, GUARD, TAIL, MAX_WATCH);
    var s := Shifted(offs, start);
    if LookIn(p, t - start) {
      if t - start == GUARD {
        assert s[0] == t;
      } else {
        assert s[|offs| - 1] == t;
      }
    }
  }

  lemma {:induction false} InJoin(a: seq<int>, b: seq<int>, t: int)
    ensures t in a + b <==> t in a || t in b
  {
  }

  lemma {:induction false} SamplesAreLooks(ps: seq<Pulse>, start: int, t: int)
    ensures t in Samples(ps, start) <==> IsLook(ps, t - start)
    decreases |ps|
  {
    hide WatchOffsets, LookIn, Shifted;
    if ps != [] {
      SamplesAreLooks(ps[1..], start + ps[0].us, t);
      LookInOffsets(ps[0], start, t);
      InJoin(Shifted(WatchOffsets(ps[0], GUARD, TAIL, MAX_WATCH), start), Samples(ps[1..], start + ps[0].us), t);
    }
  }

  /** Nobody looks while driving. */
  lemma {:induction false} LooksWhilePassive(ps: seq<Pulse>, t: int)
    requires IsLook(ps, t)
    ensures t >= 0 && !Active(ps, t)
    decreases |ps|
  {
    if !LookIn(ps[0], t) {
      LooksWhilePassive(ps[1..], t - ps[0].us);
    }
  }

  /** The monitor's outcome in terms of looks. */
  ghost predicate Obeys(ps: seq<Pulse>, bus: int -> bool, found: Alarm) {
    match found
    case NoAlarm => forall t :: IsLook(ps, t) ==> !bus(t)
    case AlarmAt(d) => IsLook(ps, d) && bus(d) && forall t :: t < d && IsLook(ps, t) ==> !bus(t)
  }

  lemma {:induction false} SeenIsObeyed(ps: seq<Pulse>, bus: int -> bool, found: Alarm)
    ensures FirstSeen(Samples(ps, 0), bus, found) <==> Obeys(ps, bus, found)
  {
    hide Samples, IsLook, FirstSeen, Obeys;
    var s := Samples(ps, 0);
    SamplesAscend(ps, 0);
    forall t ensures t in s <==> IsLook(ps, t) {
      SamplesAreLooks(ps, 0, t);
    }
    if FirstSeen(s, bus, found) {
      SeenThenObeyed(s, ps, bus, found);
    }
    if Obeys(ps, bus, found) {
      ObeyedThenSeen(s, ps, bus, found);
    }
  }

  lemma {:induction false} SeenThenObeyed(s: seq<int>, ps: seq<Pulse>, bus: int -> bool, found: Alarm)
    requires AscendingAfter(s, 0) && FirstSeen(s, bus, found)
    requires forall t :: t in s <==> IsLook(ps, t)
    ensures Obeys(ps, bus, found)
  {
    hide IsLook;
    if found.AlarmAt? {
      var i :| 0 <= i < |s| && s[i] == found.t && bus(found.t) && forall j :: 0 <= j < i ==> !bus(s[j]);
      forall t | t < found.t && IsLook(ps, t) ensures !bus(t) {
        var j :| 0 <= j < |s| && s[j] == t;
      }
    }
  }

  lemma {:induction false} ObeyedThenSeen(s: seq<int>, ps: seq<Pulse>, bus: int -> bool, found: Alarm)
    requires AscendingAfter(s, 0) && Obeys(ps, bus, found)
    requires forall t :: t in s <==> IsLook(ps, t)
    ensures FirstSeen(s, bus, found)
  {
    hide IsLook;
    assert forall j :: 0 <= j < |s| ==> IsLook(ps, s[j]);
    if found.AlarmAt? {
      var i :| 0 <= i < |s| && s[i] == found.t;
    }
  }

  // ---- Two trains that part ----

  /** From here on `x` sends a 1 where `y` sends a 0, `d` after the start: until
      76 us later everything that `x` drives is under `y`; at that instant `x`
      looks and finds `y`, for the first time; and it would not have driven
      again for another 52 us. */
  ghost predicate Contest(x: seq<Pulse>, y: seq<Pulse>, d: int) {
    && d >= 0
    && (forall t :: t < d + 76 && Active(x, t) ==> Active(y, t))
    && IsLook(x, d + 76) && Active(y, d + 76)
    && (forall t :: t < d + 76 && IsLook(x, t) ==> !Active(y, t))
    && (forall t :: d + 76 <= t < d + 128 ==> !Active(x, t))
  }

  /** A common pulse in front only shifts the contest. */
  lemma {:induction false} ContestPrepend(p: Pulse, x: seq<Pulse>, y: seq<Pulse>, d: int)
    requires Contest(x, y, d)
    ensures Contest([p] + x, [p] + y, d + p.us)
  {
    forall t
      ensures Active([p] + x, t) == if t < p.us then t >= 0 && p.active else Active(x, t - p.us)
      ensures Active([p] + y, t) == if t < p.us then t >= 0 && p.active else Active(y, t - p.us)
      ensures IsLook([p] + x, t) <==> LookIn(p, t) || IsLook(x, t - p.us)
      ensures IsLook(x, t - p.us) ==> t >= p.us
    {
      ActivePrepend(p, x, t);
      ActivePrepend(p, y, t);
      LookPrepend(p, x, t);
      if IsLook(x, t - p.us) {
        LooksWhilePassive(x, t - p.us);
      }
    }
  }

  /** They part in a passive bit: the 1 is long, the 0 short and then active. */
  lemma {:induction false} PartPassive(x: seq<Pulse>, y: seq<Pulse>)
    requires |x| >= 1 && x[0] == Pulse(false, TV2)
    requires |y| >= 2 && y[0] == Pulse(false, TV1) && y[1].active && y[1].us >= TV1
    ensures Contest(x, y, 0)
  {
    forall t
      ensures t < 64 ==> !Active(y, t)
      ensures 64 <= t < 128 ==> Active(y, t)
      ensures t < 128 ==> !Active(x, t)
      ensures IsLook(x, t) && t < 76 ==> t == GUARD
    {
      if IsLook(x[1..], t - 128) {
        LooksWhilePassive(x[1..], t - 128);
      }
    }
    assert LookIn(x[0], 76);
  }

  /** They part in an active bit: the 1 is short and then passive, the 0 long. */
  lemma {:induction false} PartActive(x: seq<Pulse>, y: seq<Pulse>)
    requires |x| >= 2 && x[0] == Pulse(true, TV1) && !x[1].active && x[1].us >= TV1
    requires |y| >= 1 && y[0] == Pulse(true, TV2)
    ensures Contest(x, y, 0)
  {
    forall t
      ensures Active(x, t) && t < 128 ==> 0 <= t < 64
      ensures 0 <= t < 128 ==> Active(y, t)
      ensures IsLook(x, t) ==> t >= 76
    {
      var z := x[1..];
      assert z[0] == x[1];
      assert 64 <= t < 128 ==> !Active(z, t - 64);
      if IsLook(x, t) && !LookIn(z[0], t - 64) {
        assert IsLook(z, t - 64) && IsLook(z[1..], t - 64 - z[0].us);
        LooksWhilePassive(z[1..], t - 64 - z[0].us);
      }
    }
    assert x[1..][0] == x[1] && LookIn(x[1], 12);
    assert IsLook(x[1..], 12);
  }

  // ---- Frames as trains ----

  /** Bits from `i` on, and the EOD. */
  ghost function Rest(bits: seq<bool>, i: nat): (ps: seq<Pulse>)
    requires i <= |bits|
    ensures |ps| == |bits| - i + 1
    ensures ps[0] == if i == |bits| then EOD else BitPulse(i % 2 == 1, bits[i])
    decreases |bits| - i
  {
    if i == |bits| then [EOD] else [BitPulse(i % 2 == 1, bits[i])] + Rest(bits, i + 1)
  }

  lemma {:induction false} LastPulse(data: seq<Octet>)
    ensures PulseAt(data, 8 * |data| + 1) == EOD
  {
  }

  lemma {:induction false} TrainIsRest(data: seq<Octet>, i: nat)
    requires i <= 8 * |data|
    ensures Train(data)[i + 1..] == Rest(AllBits(data), i)
    decreases 8 * |data| - i
  {
    hide PulseAt, BitPulse, AllBits;
    var t := Train(data);
    LastPulse(data);
    Peeled(t, i + 1);
    if i == 8 * |data| {
      assert t[i + 2..] == [];
    } else {
      TrainIsRest(data, i + 1);
      Round.PulseOfBit(data, i);
    }
  }

  lemma {:induction false} Peeled(t: seq<Pulse>, k: nat)
    requires k < |t|
    ensures t[k..] == [t[k]] + t[k + 1..]
  {
  }

  /** The first bit in which the two messages differ. */
  ghost predicate FirstDifference(a: seq<bool>, b: seq<bool>, j: nat) {
    j < |a| && j < |b| && a[..j] == b[..j] && a[j] != b[j]
  }

  /** The side with the 1 at the first difference is in a contest it loses. */
  lemma {:induction false} RestContest(a: seq<bool>, b: seq<bool>, i: nat, j: nat) returns (d: int)
    requires |a| == |b| && |a| % 2 == 0 && FirstDifference(a, b, j) && a[j] && i <= j
    ensures Contest(Rest(a, i), Rest(b, i), d)
    decreases j - i
  {
    var x, y := Rest(a, i), Rest(b, i);
    if i == j {
      d := 0;
      assert x == [x[0]] + Rest(a, i + 1) && y == [y[0]] + Rest(b, i + 1);
      assert x[1] == Rest(a, i + 1)[0] && y[1] == Rest(b, i + 1)[0];
      if i % 2 == 0 { PartPassive(x, y); } else { PartActive(x, y); }
    } else {
      assert a[i] == a[..j][i] == b[..j][i] == b[i];
      d := RestContest(a, b, i + 1, j);
      ContestPrepend(BitPulse(i % 2 == 1, a[i]), Rest(a, i + 1), Rest(b, i + 1), d);
      d := d + BitPulse(i % 2 == 1, a[i]).us;
    }
  }

  lemma {:induction false} TrainSplit(data: seq<Octet>)
    ensures Train(data) == [SOF] + Rest(AllBits(data), 0)
  {
    TrainIsRest(data, 0);
    assert Train(data) == [Train(data)[0]] + Train(data)[1..];
  }

  lemma {:induction false} TrainContest(a: seq<bool>, b: seq<bool>, j: nat) returns (d: int)
    requires |a| == |b| && |a| % 2 == 0 && FirstDifference(a, b, j) && a[j]
    ensures Contest([SOF] + Rest(a, 0), [SOF] + Rest(b, 0), d)
  {
    var rest := RestContest(a, b, 0, j);
    ContestPrepend(SOF, Rest(a, 0), Rest(b, 0), rest);
    d := rest + TV3;
  }

  /** Different messages of one length do have a first difference. */
  lemma {:induction false} Differ(a: seq<bool>, b: seq<bool>) returns (j: nat)
    requires |a| == |b| && a != b
    ensures FirstDifference(a, b, j)
    decreases |a|
  {
    var n := |a| - 1;
    if a[..n] == b[..n] {
      j := n;
      assert a == a[..n] + [a[n]] && b == b[..n] + [b[n]];
    } else {
      j := Differ(a[..n], b[..n]);
      assert a[..n][..j] == a[..j] && b[..n][..j] == b[..j];
    }
  }

  // ---- The bus ----

  /** A node drives its train until it gives up. */
  ghost predicate Drives(ps: seq<Pulse>, gaveUp: Alarm, t: int) {
    Active(ps, t) && (gaveUp.AlarmAt? ==> t < gaveUp.t)
  }

  /** Wired OR. */
  ghost function Bus(x: seq<Pulse>, dx: Alarm, y: seq<Pulse>, dy: Alarm): (bus: int -> bool) {
    t => Drives(x, dx, t) || Drives(y, dy, t)
  }

  /** Whatever the two monitors do consistently with what they see on the bus
      they themselves make: the one with the 1 gives up at its look 76 us into
      the contest, the other never, and the bus carries the other's waveform. */
  lemma {:induction false} ContestOutcome(x: seq<Pulse>, y: seq<Pulse>, d: int, dx: Alarm, dy: Alarm)
    requires Contest(x, y, d)
    ensures Obeys(x, Bus(x, dx, y, dy), dx) && Obeys(y, Bus(x, dx, y, dy), dy)
        <==> dx == AlarmAt(d + 76) && dy == NoAlarm
    ensures dx == AlarmAt(d + 76) && dy == NoAlarm ==>
      forall t :: Bus(x, dx, y, dy)(t) == Active(y, t)
  {
    var bus := Bus(x, dx, y, dy);
    forall t
      ensures IsLook(x, t) ==> !Active(x, t)
      ensures IsLook(y, t) ==> !Active(y, t)
    {
      if IsLook(x, t) { LooksWhilePassive(x, t); }
      if IsLook(y, t) { LooksWhilePassive(y, t); }
    }
    if Obeys(x, bus, dx) && Obeys(y, bus, dy) {
      OnlyOutcome(x, y, d, dx, dy);
    }
  }

  lemma {:induction false} OnlyOutcome(x: seq<Pulse>, y: seq<Pulse>, d: int, dx: Alarm, dy: Alarm)
    requires Contest(x, y, d)
    requires Obeys(x, Bus(x, dx, y, dy), dx) && Obeys(y, Bus(x, dx, y, dy), dy)
    requires forall t :: (IsLook(x, t) ==> !Active(x, t)) && (IsLook(y, t) ==> !Active(y, t))
    ensures dx == AlarmAt(d + 76) && dy == NoAlarm
  {
    var bus := Bus(x, dx, y, dy);
    var e := match dy case NoAlarm => d + 77 case AlarmAt(t) => t;
    assert dy.NoAlarm? || (Active(x, e) && !Active(y, e));
    assert d + 76 < e;
    assert Drives(y, dy, d + 76) && bus(d + 76);
    assert dx.AlarmAt? && dx.t <= d + 76;
    assert bus(dx.t) && !Active(x, dx.t);
  }

  /** `loser` gives up at `d`, one of its looks and at least 52 us before it would
      drive again; that, with `winner` never giving up, is the one outcome
      consistent with both monitors; and the bus then carries `winner` alone. */
  ghost predicate Decided(loser: seq<Octet>, winner: seq<Octet>, d: int) {
    var x, y := Train(loser), Train(winner);
    && d in Samples(x, 0)
    && (forall t :: d <= t < d + 52 ==> !Active(x, t))
    && (forall dx, dy ::
          FirstSeen(Samples(x, 0), Bus(x, dx, y, dy), dx) && FirstSeen(Samples(y, 0), Bus(x, dx, y, dy), dy)
          <==> dx == AlarmAt(d) && dy == NoAlarm)
    && (forall t :: Bus(x, AlarmAt(d), y, NoAlarm)(t) == Active(y, t))
  }

  /** VPW arbitration. Two different frames of one length start together. With
      `a` sending a 1 and `b` a 0 at the first bit in which they differ, there is
      exactly one outcome consistent with both monitors: `a` gives up at one of
      its scheduled looks, at least 52 us before it would drive again, `b`
      never does, and the bus carries `b`'s frame alone, throughout. */
  lemma {:induction false} Arbitration(a: seq<Octet>, b: seq<Octet>, j: nat) returns (d: int)
    requires 0 < |a| == |b| <= MAX_FRAME
    requires FirstDifference(AllBits(a), AllBits(b), j) && AllBits(a)[j]
    ensures Decided(a, b, d)
  {
    var at := TrainContest(AllBits(a), AllBits(b), j);
    TrainSplit(a);
    TrainSplit(b);
    d := at + 76;
    Outcome(Train(a), Train(b), at);
  }

  lemma {:induction false} Outcome(x: seq<Pulse>, y: seq<Pulse>, at: int)
    requires Contest(x, y, at)
    ensures at + 76 in Samples(x, 0)
    ensures forall t :: at + 76 <= t < at + 76 + 52 ==> !Active(x, t)
    ensures forall dx, dy ::
      FirstSeen(Samples(x, 0), Bus(x, dx, y, dy), dx) && FirstSeen(Samples(y, 0), Bus(x, dx, y, dy), dy)
      <==> dx == AlarmAt(at + 76) && dy == NoAlarm
    ensures forall t :: Bus(x, AlarmAt(at + 76), y, NoAlarm)(t) == Active(y, t)
  {
    SamplesAreLooks(x, 0, at + 76);
    forall dx, dy
      ensures FirstSeen(Samples(x, 0), Bus(x, dx, y, dy), dx) && FirstSeen(Samples(y, 0), Bus(x, dx, y, dy), dy)
        <==> dx == AlarmAt(at + 76) && dy == NoAlarm
    {
      ContestOutcome(x, y, at, dx, dy);
      SeenIsObeyed(x, Bus(x, dx, y, dy), dx);
      SeenIsObeyed(y, Bus(x, dx, y, dy), dy);
    }
    ContestOutcome(x, y, at, AlarmAt(at + 76), NoAlarm);
  }

  /** Any two different frames of one length that start together are decided. */
  lemma {:induction false} AlwaysDecided(a: seq<Octet>, b: seq<Octet>) returns (d: int)
    requires 0 < |a| == |b| <= MAX_FRAME && a != b
    ensures Decided(a, b, d) || Decided(b, a, d)
  {
    hide Decided, AllBits;
    if AllBits(a) == AllBits(b) {
      AllBitsInjective(a, b);
    }
    var j := Differ(AllBits(a), AllBits(b));
    if AllBits(a)[j] {
      d := Arbitration(a, b, j);
    } else {
      d := Arbitration(b, a, j);
    }
  }

  // ---- What a listener receives ----

  /** Levels alternate and every pulse has a width. */
  ghost predicate Alternating(ps: seq<Pulse>, active: bool)
  {
    ps == [] || (ps[0].active == active && ps[0].us > 0 && Alternating(ps[1..], !active))
  }

  /** The waveform changes where the first pulse of such a train ends. */
  lemma {:induction false} Edge(q: seq<Pulse>, active: bool)
    requires Alternating(q, active) && q != []
    ensures forall t :: 0 <= t < q[0].us ==> Active(q, t) == active
    ensures Active(q, q[0].us) == (!active && |q| >= 2)
    ensures !active && |q| == 1 ==> forall t :: !Active(q, t)
  {
    if |q| >= 2 {
      assert q[1..][0] == q[1] && Alternating(q[1..], !active);
    } else {
      assert q[1..] == [];
    }
  }

  /** Two alternating trains with the same waveform have the same first pulse,
      as long as the second one has an active pulse to come. */
  lemma {:induction false} SameHead(q: seq<Pulse>, r: seq<Pulse>, active: bool)
    requires Alternating(q, active) && Alternating(r, active)
    requires r != [] && (active || |r| >= 2)
    requires forall t :: Active(q, t) == Active(r, t)
    ensures q != [] && q[0] == r[0]
    ensures forall t :: Active(q[1..], t) == Active(r[1..], t)
  {
    Edge(r, active);
    assert Active(r, if active then 0 else r[0].us);
    assert q != [];
    SameWidth(q, r, active);
    forall t ensures Active(q[1..], t) == Active(r[1..], t) {
      SameLater(q, r, t);
    }
  }

  lemma {:induction false} SameWidth(q: seq<Pulse>, r: seq<Pulse>, active: bool)
    requires Alternating(q, active) && Alternating(r, active)
    requires q != [] && r != [] && (active || |r| >= 2)
    requires forall t :: Active(q, t) == Active(r, t)
    ensures q[0] == r[0]
  {
    Edge(q, active);
    Edge(r, active);
    assert Active(q, q[0].us) == Active(r, q[0].us);
    assert Active(q, r[0].us) == Active(r, r[0].us);
  }

  lemma {:induction false} SameLater(q: seq<Pulse>, r: seq<Pulse>, t: int)
    requires q != [] && r != [] && q[0] == r[0]
    requires forall t :: Active(q, t) == Active(r, t)
    ensures Active(q[1..], t) == Active(r[1..], t)
  {
    var w := q[0].us;
    if t >= 0 {
      assert Active(q, t + w) == Active(r, t + w);
    } else {
      NotBefore(q[1..], t);
      NotBefore(r[1..], t);
    }
  }

  lemma {:induction false} NotBefore(ps: seq<Pulse>, t: int)
    requires t < 0
    ensures !Active(ps, t)
    decreases |ps|
  {
    if ps != [] {
      assert t < ps[0].us;
    }
  }

  /** Bit for bit, the waveform determines the capture; behind the last bit it
      holds at most one pulse, and that passive. */
  lemma {:induction false} CaptureOfRest(q: seq<Pulse>, bits: seq<bool>, i: nat)
    requires i <= |bits| && |bits| % 2 == 0
    requires Alternating(q, i % 2 == 1) && forall t :: Active(q, t) == Active(Rest(bits, i), t)
    ensures |bits| - i <= |q| <= |bits| - i + 1
    ensures q[..|bits| - i] == Rest(bits, i)[..|bits| - i]
    ensures |q| == |bits| - i + 1 ==> !q[|q| - 1].active
    decreases |bits| - i
  {
    var r := Rest(bits, i);
    if i == |bits| {
      if |q| >= 2 {
        assert Alternating(q[1..], true) && Active(q[1..], 0);
        assert Active(q, q[0].us);
        assert r[1..] == [] && !Active(r, q[0].us);
      }
    } else {
      RestAlternates(bits, i);
      SameHead(q, r, i % 2 == 1);
      assert r[1..] == Rest(bits, i + 1);
      CaptureOfRest(q[1..], bits, i + 1);
      var n := |bits| - i;
      assert q[..n] == [q[0]] + q[1..][..n - 1];
      assert r[..n] == [r[0]] + r[1..][..n - 1];
    }
  }

  lemma {:induction false} RestAlternates(bits: seq<bool>, i: nat)
    requires i <= |bits| && |bits| % 2 == 0
    ensures Alternating(Rest(bits, i), i % 2 == 1)
    decreases |bits| - i
  {
    var r := Rest(bits, i);
    if i < |bits| {
      RestAlternates(bits, i + 1);
      assert r[1..] == Rest(bits, i + 1);
    } else {
      assert r[1..] == [];
    }
  }

  /** A listener that captures the waveform of a frame, and stays open at least
      until its end of data if it records the closing passive phase at all,
      decodes that frame. */
  lemma {:induction false} CaptureDecodes(q: seq<Pulse>, b: seq<Octet>)
    requires 2 <= |b| <= MAX_FRAME && CrcCheck(b)
    requires Alternating(q, true) && forall t :: Active(q, t) == Active(Train(b), t)
    requires |q| > 1 + 8 * |b| ==> q[|q| - 1].us > 163
    ensures DecodeFrom(q).status == Ok && DecodeFrom(q).data == b
  {
    hide Active, Alternating, DecodeFrom, CrcCheck, Rest, Train, AllBits;
    TrainSplit(b);
    CaptureOfTrain(q, AllBits(b), Train(b));
    SplitDecodes(q, 1 + 8 * |b|, b);
  }

  lemma {:induction false} CaptureOfTrain(q: seq<Pulse>, bits: seq<bool>, r: seq<Pulse>)
    requires |bits| % 2 == 0 && r == [SOF] + Rest(bits, 0)
    requires Alternating(q, true) && forall t :: Active(q, t) == Active(r, t)
    ensures 1 + |bits| <= |q| <= 2 + |bits|
    ensures q[..1 + |bits|] == r[..1 + |bits|]
    ensures |q| == 2 + |bits| ==> !q[|q| - 1].active
  {
    RestAlternates(bits, 0);
    assert r[1..] == Rest(bits, 0);
    SameHead(q, r, true);
    CaptureOfRest(q[1..], bits, 0);
    var n := |bits|;
    assert q[..1 + n] == [q[0]] + q[1..][..n];
    assert r[..1 + n] == [r[0]] + r[1..][..n];
  }

  lemma {:induction false} SplitDecodes(q: seq<Pulse>, n: nat, b: seq<Octet>)
    requires 2 <= |b| <= MAX_FRAME && CrcCheck(b)
    requires n == 1 + 8 * |b| && n <= |q| <= n + 1 && q[..n] == Train(b)[..n]
    requires |q| == n + 1 ==> !q[n].active && q[n].us > 163
    ensures DecodeFrom(q).status == Ok && DecodeFrom(q).data == b
  {
    hide DecodeFrom, CrcCheck, PulseAt, Train;
    forall k | 0 <= k < n ensures Round.InWindow(q[..n][k], PulseAt(b, k)) {
      assert q[..n][k] == Train(b)[k];
      Round.SentInWindow(b, k);
    }
    assert [] + q[..n] + q[n..] == q;
    Round.DecodesDistorted(b, [], q[..n], q[n..]);
  }

  /** Whatever the two nodes do consistently with their monitors, a listener
      that captures the bus they share decodes the frame with the 0. */
  lemma {:induction false} WinnerIsReceived(a: seq<Octet>, b: seq<Octet>, j: nat, da: Alarm, db: Alarm, q: seq<Pulse>)
    requires 2 <= |a| == |b| <= MAX_FRAME && CrcCheck(b)
    requires FirstDifference(AllBits(a), AllBits(b), j) && AllBits(a)[j]
    requires FirstSeen(Samples(Train(a), 0), Bus(Train(a), da, Train(b), db), da)
    requires FirstSeen(Samples(Train(b), 0), Bus(Train(a), da, Train(b), db), db)
    requires Alternating(q, true) && forall t :: Active(q, t) == Bus(Train(a), da, Train(b), db)(t)
    requires |q| > 1 + 8 * |b| ==> q[|q| - 1].us > 163
    ensures DecodeFrom(q).status == Ok && DecodeFrom(q).data == b
  {
    var d := Arbitration(a, b, j);
    assert da == AlarmAt(d) && db == NoAlarm;
    CaptureDecodes(q, b);
  }
}
