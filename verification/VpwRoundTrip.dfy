/** What decoding recovers, and what each verdict says about the capture: the
    decoder against the receive windows of SAE J1850, Table 5, in microseconds. */
module VpwRoundTrip {
  import opened J1850Crc
  import opened J1850Bits
  import opened J1850Capture
  import opened VpwCodec

  // ---- The standard's windows ----

  predicate IsShort(us: nat) { 35 <= us <= 96 }
  predicate IsLong(us: nat) { 97 <= us <= 163 }
  predicate IsThird(us: nat) { 164 <= us <= 239 }
  predicate IsFourth(us: nat) { 240 <= us }

  /** The pulse carries this bit: active and short or passive and long is a 1. */
  predicate IsBit(p: Pulse, active: bool, one: bool) {
    p.active == active && if active == one then IsShort(p.us) else IsLong(p.us)
  }

  predicate IsAnyBit(p: Pulse, active: bool) { IsBit(p, active, true) || IsBit(p, active, false) }

  /** The captured pulse reads as the sent one: same level, and a width inside
      the receive window of the one sent. */
  predicate InWindow(got: Pulse, sent: Pulse) {
    && got.active == sent.active
    && ((sent.us == 64 && IsShort(got.us)) || (sent.us == 128 && IsLong(got.us)) || (sent.us == 200 && IsThird(got.us)))
  }

  // ---- What a capture says ----

  /** The bits of the pulses in front that carry one, levels alternating from
      `active`. */
  ghost function BitsOf(ps: seq<Pulse>, active: bool): (bits: seq<bool>)
    ensures |bits| <= |ps|
    ensures forall k :: 0 <= k < |bits| ==> IsBit(ps[k], active == (k % 2 == 0), bits[k])
    ensures |bits| < |ps| ==> !IsAnyBit(ps[|bits|], active == (|bits| % 2 == 0))
    decreases |ps|
  {
    if ps == [] || !IsAnyBit(ps[0], active) then []
    else
      var rest := BitsOf(ps[1..], !active);
      var bits := [IsBit(ps[0], active, true)] + rest;
      assert forall k :: 1 <= k < |bits| ==> ps[k] == ps[1..][k - 1] && bits[k] == rest[k - 1];
      assert |bits| < |ps| ==> ps[|bits|] == ps[1..][|rest|];
      bits
  }

  datatype End = Fault(status: Status) | EndOfData | EndOfFrame

  /** What a pulse says that does not carry the bit that could be next. */
  function EndAt(p: Pulse, active: bool): (e: End) {
    if p.active != active || p.us < 35 then Fault(BadSymbol)
    else if IsFourth(p.us) then (if active then Fault(Break) else EndOfFrame)
    else if active then Fault(BadSymbol)
    else EndOfData
  }

  ghost function WholeBytes(bits: seq<bool>): (d: seq<Octet>) { PackAll(bits).bytes }

  /** Whole bytes, two or more, of which the last is the CRC of the others. */
  ghost function Judged(bits: seq<bool>): (s: Status) {
    var d := WholeBytes(bits);
    if |bits| % 8 != 0 then Framing
    else if |bits| < 16 then TooShort
    else if d[|d| - 1] != Crc(d[..|d| - 1]) then BadCrc
    else Ok
  }

  /** Behind a SOF, with `seen` read already. */
  ghost function FrameOf(seen: seq<bool>, ps: seq<Pulse>): (r: Decoded) {
    var more := BitsOf(ps, |seen| % 2 == 1);
    FrameWith(seen + more, ps[|more|..])
  }

  /** These bits, and the pulses from the first one on that carries none. */
  ghost function FrameWith(bits: seq<bool>, rest: seq<Pulse>): (r: Decoded) {
    if |bits| > 96 then Decoded(TooLong, WholeBytes(bits[..96]), [], false, false, false)
    else
      var r := Decoded(Judged(bits), WholeBytes(bits), [], false, false, false);
      if rest == [] then r
      else
        match EndAt(rest[0], |bits| % 2 == 1)
        case Fault(s) => r.(status := s)
        case EndOfFrame => r
        case EndOfData => if |bits| % 8 != 0 then r.(status := Framing) else ReplyOf(r.(eod := true), rest[1..])
  }

  /** Behind the end of data: a normalization bit, of either width, and a response. */
  ghost function ReplyOf(r: Decoded, ps: seq<Pulse>): (r': Decoded) {
    if ps == [] then r
    else if IsAnyBit(ps[0], true) then ResponseOf(r.(nb := true, nbLong := IsLong(ps[0].us)), [], ps[1..])
    else match EndAt(ps[0], true)
      case Fault(s) => r.(status := s)
      case _ => r
  }

  /** The bits of a response, with `seen` read already. */
  ghost function ResponseOf(r: Decoded, seen: seq<bool>, ps: seq<Pulse>): (r': Decoded) {
    var more := BitsOf(ps, |seen| % 2 == 1);
    ResponseWith(r, seen + more, ps[|more|..])
  }

  /** A response without its frame is only told from none. */
  ghost function ResponseWith(r: Decoded, bits: seq<bool>, rest: seq<Pulse>): (r': Decoded) {
    if |bits| > 96 then r.(status := TooLong, ifr := WholeBytes(bits[..96]))
    else
      var r' := r.(ifr := WholeBytes(bits));
      var end := if rest == [] then EndOfFrame else EndAt(rest[0], |bits| % 2 == 1);
      if end.Fault? then r'.(status := end.status)
      else if |bits| % 8 != 0 then r'.(status := Framing)
      else if r.status == IfrOnly && bits == [] then r'.(status := Empty)
      else r'
  }

  /** What a capture says from its first active pulse on. */
  ghost function Said(ps: seq<Pulse>): (r: Decoded)
    decreases |ps|
  {
    if ps == [] then Decoded(Empty, [], [], false, false, false)
    else if !ps[0].active then Said(ps[1..])
    else if IsThird(ps[0].us) then FrameOf([], ps[1..])
    else if IsAnyBit(ps[0], true) then
      ResponseOf(Decoded(IfrOnly, [], [], false, true, IsLong(ps[0].us)), [], ps[1..])
    else Decoded(if IsFourth(ps[0].us) then Break else NoSof, [], [], false, false, false)
  }

  // ---- The decoder says the same ----

  lemma {:induction false} Windows(us: nat)
    ensures Classify(us).Invalid? <==> us < 35
    ensures Classify(us).Short? <==> IsShort(us)
    ensures Classify(us).Long? <==> IsLong(us)
    ensures Classify(us).Wide? <==> IsThird(us)
    ensures Classify(us).Endless? <==> IsFourth(us)
  {
  }

  /** One more pulse that carries a bit. */
  lemma {:induction false} BitsOfNext(ps: seq<Pulse>, active: bool)
    requires ps != []
    ensures IsAnyBit(ps[0], active) ==> BitsOf(ps, active) == [IsBit(ps[0], active, true)] + BitsOf(ps[1..], !active)
    ensures !IsAnyBit(ps[0], active) ==> BitsOf(ps, active) == []
  {
  }

  /** In the data field, with these bits in. */
  ghost predicate HasBits(d: Inside, bits: seq<bool>) {
    d == Inside(PackAll(bits), EMPTY, false, false, |bits| % 2 == 1, false, false, false) && |bits| <= 96
  }

  /** In the response, behind `r`, with these bits in. */
  ghost predicate HasReply(d: Inside, r: Decoded, bits: seq<bool>) {
    && d.data.bytes == r.data && d.data.count == 0 && d.ifr == PackAll(bits) && d.inIfr && !d.needNb
    && d.turn == (|bits| % 2 == 1) && d.eod == r.eod && d.nb == r.nb && d.nbLong == r.nbLong && |bits| <= 96
  }

  /** The verdict that `r` carries is the one on its data, or on none. */
  ghost predicate Carries(r: Decoded, opening: Status) {
    && r.ifr == []
    && if opening == IfrOnly then r.status == IfrOnly
       else opening == Ok
            && r.status == (if |r.data| < 2 then TooShort else if !CrcCheck(r.data) then BadCrc else Ok)
  }

  lemma {:induction false} Further(ps: seq<Pulse>, n: nat)
    requires n < |ps|
    ensures ps[1..][n..] == ps[n + 1..]
  {
  }

  lemma {:induction false} FrameFull(seen: seq<bool>, more: seq<bool>, rest: seq<Pulse>)
    requires |seen| == 96 && more != []
    ensures FrameWith(seen + more, rest) == Decoded(TooLong, WholeBytes(seen), [], false, false, false)
  {
    hide WholeBytes, Judged, ReplyOf, EndAt;
    assert (seen + more)[..96] == seen;
  }

  lemma {:induction false} ResponseFull(r: Decoded, seen: seq<bool>, more: seq<bool>, rest: seq<Pulse>)
    requires |seen| == 96 && more != []
    ensures ResponseWith(r, seen + more, rest) == r.(status := TooLong, ifr := WholeBytes(seen))
  {
    hide WholeBytes, EndAt;
    assert (seen + more)[..96] == seen;
  }

  lemma {:induction false} Behind(q: seq<Pulse>, tail: seq<Pulse>)
    ensures (q + tail)[|q|..] == tail
  {
  }

  lemma {:induction false} Appended(seen: seq<bool>, one: bool, more: seq<bool>)
    ensures seen + [one] + more == seen + ([one] + more)
  {
  }

  lemma {:induction false} Room(bits: seq<bool>)
    ensures Full(PackAll(bits)) <==> |bits| % 8 == 0 && |bits| >= 96
    ensures PackAll(bits).count == |bits| % 8
    ensures |bits| % 8 == 0 ==> 8 * |WholeBytes(bits)| == |bits|
  {
  }

  lemma {:induction false} ResponseSaid(d: Inside, r: Decoded, seen: seq<bool>, opening: Status, ps: seq<Pulse>)
    requires HasReply(d, r, seen) && Carries(r, opening)
    ensures DecodeBody(d, opening, ps) == ResponseOf(r, seen, ps)
    decreases |ps|
  {
    hide PackAll, WholeBytes, Classify, BitsOf, Verdict, ResponseWith, TakePulse, Carries, HasReply, EndAt;
    if ps != [] && IsAnyBit(ps[0], |seen| % 2 == 1) {
      ResponseBit(d, r, seen, opening, ps);
    } else {
      if ps != [] {
        BitsOfNext(ps, |seen| % 2 == 1);
        assert ps[0..] == ps;
      }
      assert seen + [] == seen;
      ResponseStops(d, r, seen, opening, ps);
    }
  }

  /** No further bit: the response ends here, or with a fault. */
  lemma {:induction false} ResponseStops(d: Inside, r: Decoded, seen: seq<bool>, opening: Status, ps: seq<Pulse>)
    requires HasReply(d, r, seen) && Carries(r, opening) && (ps != [] ==> !IsAnyBit(ps[0], |seen| % 2 == 1))
    ensures DecodeBody(d, opening, ps) == ResponseWith(r, seen, ps)
  {
    hide PackAll, Push, CrcCheck, Crc, Classify;
    Room(seen);
    if ps != [] {
      Windows(ps[0].us);
    }
  }

  lemma {:induction false} ResponseBit(d: Inside, r: Decoded, seen: seq<bool>, opening: Status, ps: seq<Pulse>)
    requires HasReply(d, r, seen) && Carries(r, opening)
    requires ps != [] && IsAnyBit(ps[0], |seen| % 2 == 1)
    ensures DecodeBody(d, opening, ps) == ResponseOf(r, seen, ps)
    decreases |ps|, 0
  {
    hide PackAll, BitsOf, Verdict, Carries, TakePulse, ResponseOf, WholeBytes;
    var one := IsBit(ps[0], |seen| % 2 == 1, true);
    TakesReply(d, r, seen, ps[0], one);
    if |seen| < 96 {
      ResponseSaid(TakePulse(d, ps[0]).d, r, seen + [one], opening, ps[1..]);
    }
    ResponseGrows(r, seen, ps);
  }

  lemma {:induction false} ResponseGrows(r: Decoded, seen: seq<bool>, ps: seq<Pulse>)
    requires |seen| <= 96 && ps != [] && IsAnyBit(ps[0], |seen| % 2 == 1)
    ensures var one := IsBit(ps[0], |seen| % 2 == 1, true);
            ResponseOf(r, seen, ps) ==
              if |seen| == 96 then r.(status := TooLong, ifr := WholeBytes(seen))
              else ResponseOf(r, seen + [one], ps[1..])
  {
    hide WholeBytes, BitsOf, ResponseWith, IsBit;
    var active := |seen| % 2 == 1;
    var one := IsBit(ps[0], active, true);
    var more := BitsOf(ps[1..], !active);
    BitsOfNext(ps, active);
    Appended(seen, one, more);
    Further(ps, |more|);
    if |seen| == 96 {
      ResponseFull(r, seen, [one] + more, ps[1 + |more|..]);
    }
  }

  lemma {:induction false} TakesReply(d: Inside, r: Decoded, seen: seq<bool>, p: Pulse, one: bool)
    requires HasReply(d, r, seen) && IsBit(p, |seen| % 2 == 1, one)
    ensures var t := TakePulse(d, p);
            if |seen| == 96 then t.Stop? && Report(t.d, t.status) == r.(status := TooLong, ifr := WholeBytes(seen))
            else t.Go? && HasReply(t.d, r, seen + [one])
  {
    hide PackAll, Push, Classify;
    Windows(p.us);
    Room(seen);
    PackNext(seen, one);
  }

  lemma {:induction false} FrameSaid(d: Inside, seen: seq<bool>, ps: seq<Pulse>)
    requires HasBits(d, seen)
    ensures DecodeBody(d, Ok, ps) == FrameOf(seen, ps)
    decreases |ps|
  {
    hide PackAll, Push, Crc, Classify, BitsOf, ReplyOf;
    Room(seen);
    if ps == [] {
      assert seen + BitsOf(ps, |seen| % 2 == 1) == seen;
    } else {
      var active := |seen| % 2 == 1;
      Windows(ps[0].us);
      BitsOfNext(ps, active);
      if IsAnyBit(ps[0], active) {
        FrameBit(d, seen, ps);
      } else {
        assert seen + [] == seen && ps[0..] == ps;
        if ps[0].active == active && !active && IsThird(ps[0].us) && |seen| % 8 == 0 {
          ReplySaid(TakePulse(d, ps[0]).d, seen, ps[1..]);
        }
      }
    }
  }

  lemma {:induction false} FrameBit(d: Inside, seen: seq<bool>, ps: seq<Pulse>)
    requires HasBits(d, seen) && ps != [] && IsAnyBit(ps[0], |seen| % 2 == 1)
    ensures DecodeBody(d, Ok, ps) == FrameOf(seen, ps)
    decreases |ps|, 0
  {
    hide PackAll, BitsOf, Verdict, TakePulse, FrameOf, WholeBytes;
    var one := IsBit(ps[0], |seen| % 2 == 1, true);
    TakesBit(d, seen, ps[0], one);
    if |seen| < 96 {
      FrameSaid(TakePulse(d, ps[0]).d, seen + [one], ps[1..]);
    }
    FrameGrows(seen, ps);
  }

  lemma {:induction false} FrameGrows(seen: seq<bool>, ps: seq<Pulse>)
    requires |seen| <= 96 && ps != [] && IsAnyBit(ps[0], |seen| % 2 == 1)
    ensures var one := IsBit(ps[0], |seen| % 2 == 1, true);
            FrameOf(seen, ps) ==
              if |seen| == 96 then Decoded(TooLong, WholeBytes(seen), [], false, false, false)
              else FrameOf(seen + [one], ps[1..])
  {
    hide WholeBytes, BitsOf, FrameWith, IsBit;
    var active := |seen| % 2 == 1;
    var one := IsBit(ps[0], active, true);
    var more := BitsOf(ps[1..], !active);
    BitsOfNext(ps, active);
    Appended(seen, one, more);
    Further(ps, |more|);
    if |seen| == 96 {
      FrameFull(seen, [one] + more, ps[1 + |more|..]);
    }
  }

  lemma {:induction false} TakesBit(d: Inside, seen: seq<bool>, p: Pulse, one: bool)
    requires HasBits(d, seen) && IsBit(p, |seen| % 2 == 1, one)
    ensures var t := TakePulse(d, p);
            if |seen| == 96 then
              t.Stop? && Report(t.d, t.status) == Decoded(TooLong, WholeBytes(seen), [], false, false, false)
            else t.Go? && HasBits(t.d, seen + [one])
  {
    hide PackAll, Push, Classify;
    Windows(p.us);
    Room(seen);
    PackNext(seen, one);
  }

  lemma {:induction false} ReplySaid(d: Inside, bits: seq<bool>, ps: seq<Pulse>)
    requires |bits| % 8 == 0 && |bits| <= 96
    requires d == Inside(PackAll(bits), EMPTY, true, true, true, true, false, false)
    ensures DecodeBody(d, Ok, ps) == ReplyOf(Decoded(Judged(bits), WholeBytes(bits), [], true, false, false), ps)
  {
    hide PackAll, Push, Crc, Classify, BitsOf, ResponseOf;
    Room(bits);
    EmptyPacker();
    if ps != [] {
      Windows(ps[0].us);
      if IsAnyBit(ps[0], true) {
        var r := Decoded(Judged(bits), WholeBytes(bits), [], true, true, IsLong(ps[0].us));
        ResponseSaid(TakePulse(d, ps[0]).d, r, [], Ok, ps[1..]);
      }
    }
  }

  lemma {:induction false} EmptyPacker()
    ensures PackAll([]) == EMPTY
  {
  }

  /** For every capture whatever: status, data, response and marks are those that
      the windows of the standard give its pulses. */
  lemma {:induction false} DecodesExactly(ps: seq<Pulse>)
    ensures DecodeFrom(ps) == Said(ps)
    decreases |ps|
  {
    hide PackAll, Classify, FrameOf, ResponseOf, DecodeBody;
    if ps != [] {
      EmptyPacker();
      Windows(ps[0].us);
      if !ps[0].active {
        DecodesExactly(ps[1..]);
      } else if IsThird(ps[0].us) {
        FrameSaid(StartInside(false, false), [], ps[1..]);
      } else if IsAnyBit(ps[0], true) {
        var r := Decoded(IfrOnly, [], [], false, true, IsLong(ps[0].us));
        ResponseSaid(StartInside(true, IsLong(ps[0].us)), r, [], IfrOnly, ps[1..]);
      }
    }
  }

  // ---- Round trips ----

  /** SOF and data bits of the frame, each within its window. */
  ghost predicate Distorted(q: seq<Pulse>, data: seq<Octet>) {
    && |q| == 1 + 8 * |data|
    && forall k :: 0 <= k < |q| ==> InWindow(q[k], PulseAt(data, k))
  }

  /** What may follow the last bit: nothing, an end of data, or an end of frame
      and then anything at all. */
  ghost predicate Closes(tail: seq<Pulse>) {
    || tail == []
    || (!tail[0].active && IsFourth(tail[0].us))
    || (|tail| == 1 && !tail[0].active && IsThird(tail[0].us))
  }

  /** Each pulse carries its bit, from a passive one on. */
  ghost predicate Carry(q: seq<Pulse>, bits: seq<bool>) {
    |q| == |bits| && forall k :: 0 <= k < |q| ==> IsBit(q[k], k % 2 == 1, bits[k])
  }

  lemma {:induction false} SkipsIdle(idle: seq<Pulse>, ps: seq<Pulse>)
    requires AllPassive(idle)
    ensures Said(idle + ps) == Said(ps)
  {
    hide FrameOf, ResponseOf;
    if idle == [] {
      assert idle + ps == ps;
    } else {
      assert (idle + ps)[1..] == idle[1..] + ps;
      SkipsIdle(idle[1..], ps);
    }
  }

  /** Pulse `k + 1` carries bit `k`, active when `k` is odd. */
  lemma {:induction false} PulseOfBit(data: seq<Octet>, k: nat)
    requires k < 8 * |data|
    ensures PulseAt(data, k + 1) == BitPulse(k % 2 == 1, AllBits(data)[k])
  {
    hide AllBits, Bit, BitPulse;
    AllBitsAt(data, k);
    assert (k + 1) % 2 == 0 <==> k % 2 == 1;
  }

  lemma {:induction false} WindowOfBit(p: Pulse, active: bool, one: bool)
    ensures InWindow(p, BitPulse(active, one)) <==> IsBit(p, active, one)
    ensures InWindow(p, SOF) <==> p.active && IsThird(p.us)
  {
  }

  lemma {:induction false} DistortedBits(q: seq<Pulse>, data: seq<Octet>)
    requires |q| == 1 + 8 * |data|
    ensures Distorted(q, data) <==> q[0].active && IsThird(q[0].us) && Carry(q[1..], AllBits(data))
  {
    hide IsBit, InWindow, IsThird, BitPulse, PulseAt;
    WindowOfBit(q[0], true, true);
    assert PulseAt(data, 0) == SOF by { FirstIsSof(data); }
    forall k | 0 <= k < 8 * |data|
      ensures q[1..][k] == q[k + 1]
      ensures IsBit(q[k + 1], k % 2 == 1, AllBits(data)[k]) <==> InWindow(q[k + 1], PulseAt(data, k + 1))
    {
      PulseOfBit(data, k);
      WindowOfBit(q[k + 1], k % 2 == 1, AllBits(data)[k]);
    }
    if Distorted(q, data) {
      assert InWindow(q[0], PulseAt(data, 0));
      forall k | 0 <= k < 8 * |data| ensures IsBit(q[1..][k], k % 2 == 1, AllBits(data)[k]) {
        assert InWindow(q[k + 1], PulseAt(data, k + 1));
      }
    }
    if q[0].active && IsThird(q[0].us) && Carry(q[1..], AllBits(data)) {
      forall k | 0 <= k < |q| ensures InWindow(q[k], PulseAt(data, k)) {
        if k > 0 {
          assert IsBit(q[1..][k - 1], (k - 1) % 2 == 1, AllBits(data)[k - 1]);
        }
      }
    }
  }

  lemma {:induction false} FirstIsSof(data: seq<Octet>)
    ensures PulseAt(data, 0) == SOF
  {
  }

  lemma {:induction false} OneKind(p: Pulse, active: bool, one: bool)
    requires IsBit(p, active, one)
    ensures IsAnyBit(p, active) && IsBit(p, active, true) == one
  {
  }

  /** The pulses that carry these bits, and then one that does not carry another. */
  lemma {:induction false} ReadsBack(q: seq<Pulse>, active: bool, bits: seq<bool>, tail: seq<Pulse>)
    requires |q| == |bits| && forall k :: 0 <= k < |q| ==> IsBit(q[k], active == (k % 2 == 0), bits[k])
    requires tail != [] ==> !IsAnyBit(tail[0], active == (|q| % 2 == 0))
    ensures BitsOf(q + tail, active) == bits
    decreases |q|
  {
    hide IsBit, IsAnyBit;
    if q == [] {
      assert q + tail == tail;
    } else {
      assert IsBit(q[0], active == (0 % 2 == 0), bits[0]);
      OneKind(q[0], active, bits[0]);
      assert (q + tail)[1..] == q[1..] + tail;
      forall k | 0 <= k < |q| - 1 ensures IsBit(q[1..][k], !active == (k % 2 == 0), bits[1..][k]) {
        assert IsBit(q[k + 1], active == ((k + 1) % 2 == 0), bits[k + 1]);
      }
      ReadsBack(q[1..], !active, bits[1..], tail);
    }
  }

  lemma {:induction false} FrameParts(q: seq<Pulse>, data: seq<Octet>)
    requires Distorted(q, data)
    ensures |q| == 1 + 8 * |data| && q[0].active && IsThird(q[0].us) && Carry(q[1..], AllBits(data))
  {
    DistortedBits(q, data);
  }

  /** Neither an end of data nor an end of frame carries a bit. */
  lemma {:induction false} NoBitEnds(p: Pulse)
    requires !p.active && (IsThird(p.us) || IsFourth(p.us))
    ensures !IsAnyBit(p, false)
  {
  }

  lemma {:induction false} JudgedOk(data: seq<Octet>)
    ensures WholeBytes(AllBits(data)) == data
    ensures Judged(AllBits(data)) == Ok <==> |data| >= 2 && CrcCheck(data)
  {
    hide AllBits, Crc;
    PackUnpacks(data);
    Room(AllBits(data));
  }

  lemma {:induction false} FrameEnds(q: seq<Pulse>, bits: seq<bool>, tail: seq<Pulse>)
    requires Carry(q, bits) && |bits| % 8 == 0 && |bits| <= 96 && Closes(tail)
    ensures FrameOf([], q + tail)
         == Decoded(Judged(bits), WholeBytes(bits), [], tail != [] && IsThird(tail[0].us), false, false)
  {
    hide BitsOf, Judged, WholeBytes, IsBit;
    if tail != [] {
      NoBitEnds(tail[0]);
    }
    ReadsBack(q, false, bits, tail);
    Behind(q, tail);
    assert [] + bits == bits;
    assert |tail| == 1 ==> tail[1..] == [];
  }

  /** Round trip under jitter: however each pulse of an encoded frame is
      stretched inside its own receive window, and whatever idle precedes it,
      decoding gives back the frame. */
  lemma {:induction false} DecodesDistorted(data: seq<Octet>, idle: seq<Pulse>, q: seq<Pulse>, tail: seq<Pulse>)
    requires 2 <= |data| <= MAX_FRAME && CrcCheck(data)
    requires AllPassive(idle) && Distorted(q, data) && Closes(tail)
    ensures DecodeFrom(idle + q + tail)
         == Decoded(Ok, data, [], tail != [] && IsThird(tail[0].us), false, false)
  {
    hide FrameOf, Said, CrcCheck, AllBits, Judged, Distorted, WholeBytes, Carry, Closes, DecodeFrom, IsThird;
    assert idle + q + tail == idle + (q + tail);
    DecodesExactly(idle + (q + tail));
    SkipsIdle(idle, q + tail);
    FrameParts(q, data);
    JudgedOk(data);
    assert (q + tail)[1..] == q[1..] + tail;
    OpensFrame(q + tail);
    FrameEnds(q[1..], AllBits(data), tail);
  }

  lemma {:induction false} OpensFrame(ps: seq<Pulse>)
    requires ps != [] && ps[0].active && IsThird(ps[0].us)
    ensures Said(ps) == FrameOf([], ps[1..])
  {
  }

  lemma {:induction false} TrainEnds(data: seq<Octet>)
    ensures var n := PulseCount(|data|);
            Distorted(Train(data)[..n - 1], data) && Closes([Train(data)[n - 1]])
  {
    hide Bit;
    forall k | 0 <= k < PulseCount(|data|) - 1 ensures InWindow(Train(data)[k], PulseAt(data, k)) {
      SentInWindow(data, k);
    }
  }

  lemma {:induction false} SentInWindow(data: seq<Octet>, k: nat)
    requires k < PulseCount(|data|)
    ensures InWindow(PulseAt(data, k), PulseAt(data, k))
  {
  }

  /** The encoder's own output, with its trailing EOD, is such a capture. */
  lemma {:induction false} DecodesEncoded(data: seq<Octet>)
    requires 2 <= |data| <= MAX_FRAME && CrcCheck(data)
    ensures DecodeFrom(Train(data)).status == Ok && DecodeFrom(Train(data)).data == data
  {
    hide DecodeFrom, CrcCheck, Crc, Bit, Closes;
    TrainEnds(data);
    var n := PulseCount(|data|);
    var train := Train(data);
    assert train == [] + train[..n - 1] + [train[n - 1]];
    DecodesDistorted(data, [], train[..n - 1], [train[n - 1]]);
  }

  /** In-frame response: behind the frame, its end of data and a normalization
      bit, any whole bytes that a responder sends come back too, and which of the
      two normalization bits it was. */
  lemma {:induction false} DecodesResponse(data: seq<Octet>, q: seq<Pulse>, eod: Pulse, nb: Pulse, reply: seq<Octet>,
                                           w: seq<Pulse>, tail: seq<Pulse>)
    requires 2 <= |data| <= MAX_FRAME && CrcCheck(data) && |reply| <= MAX_FRAME
    requires Distorted(q, data) && !eod.active && IsThird(eod.us) && IsAnyBit(nb, true)
    requires Carry(w, AllBits(reply)) && Closes(tail)
    ensures DecodeFrom(q + [eod, nb] + w + tail) == Decoded(Ok, data, reply, true, true, IsLong(nb.us))
  {
    hide FrameOf, ResponseOf, ReplyOf, CrcCheck, AllBits, Said, Judged, Distorted, WholeBytes, Carry, Closes;
    hide DecodeFrom, IsThird, IsAnyBit, IsLong;
    var bits, more := AllBits(data), AllBits(reply);
    var ps := q + [eod, nb] + w + tail;
    FrameParts(q, data);
    JudgedOk(data);
    JudgedOk(reply);
    assert ps[1..] == q[1..] + ([eod] + ([nb] + (w + tail)));
    DecodesExactly(ps);
    OpensFrame(ps);
    DataEnds(q[1..], bits, eod, [nb] + (w + tail));
    ReplyOpens(Decoded(Ok, data, [], true, false, false), nb, w + tail);
    ReplyEnds(Decoded(Ok, data, [], true, true, IsLong(nb.us)), w, more, tail);
  }

  lemma {:induction false} ReplyOpens(r: Decoded, nb: Pulse, rest: seq<Pulse>)
    requires IsAnyBit(nb, true)
    ensures ReplyOf(r, [nb] + rest) == ResponseOf(r.(nb := true, nbLong := IsLong(nb.us)), [], rest)
  {
    hide ResponseOf;
    assert ([nb] + rest)[1..] == rest;
  }

  lemma {:induction false} DataEnds(q: seq<Pulse>, bits: seq<bool>, eod: Pulse, rest: seq<Pulse>)
    requires Carry(q, bits) && |bits| % 8 == 0 && |bits| <= 96 && !eod.active && IsThird(eod.us)
    ensures FrameOf([], q + ([eod] + rest))
         == ReplyOf(Decoded(Judged(bits), WholeBytes(bits), [], true, false, false), rest)
  {
    hide BitsOf, Judged, WholeBytes, ReplyOf, IsBit, FrameWith, IsThird;
    NoBitEnds(eod);
    var tail := [eod] + rest;
    ReadsBack(q, false, bits, tail);
    Behind(q, tail);
    assert [] + bits == bits;
    EodSplits(bits, eod, rest);
  }

  lemma {:induction false} EodSplits(bits: seq<bool>, eod: Pulse, rest: seq<Pulse>)
    requires |bits| % 8 == 0 && |bits| <= 96 && !eod.active && IsThird(eod.us)
    ensures FrameWith(bits, [eod] + rest)
         == ReplyOf(Decoded(Judged(bits), WholeBytes(bits), [], true, false, false), rest)
  {
    hide Judged, WholeBytes, ReplyOf;
    assert ([eod] + rest)[1..] == rest;
  }

  lemma {:induction false} ReplyEnds(r: Decoded, w: seq<Pulse>, bits: seq<bool>, tail: seq<Pulse>)
    requires Carry(w, bits) && |bits| % 8 == 0 && |bits| <= 96 && Closes(tail) && r.status == Ok
    ensures ResponseOf(r, [], w + tail) == r.(ifr := WholeBytes(bits))
  {
    hide BitsOf, WholeBytes, IsBit;
    if tail != [] {
      NoBitEnds(tail[0]);
    }
    ReadsBack(w, false, bits, tail);
    Behind(w, tail);
    assert [] + bits == bits;
  }

  // ---- The converse ----

  /** Behind `i` idle pulses the capture holds frame `d`. */
  ghost predicate IsFrameAt(ps: seq<Pulse>, i: nat, d: seq<Octet>) {
    && i + 1 + 8 * |d| <= |ps| && AllPassive(ps[..i])
    && Distorted(ps[i..][..1 + 8 * |d|], d)
    && |d| >= 2 && CrcCheck(d)
  }

  /** A verdict of OK means that the capture really is this frame: behind some
      idle, its pulses have the levels of the encoder's and widths inside the
      windows of those it sends for the bytes reported, and these end in their
      CRC. */
  lemma {:induction false} OkIsEncoded(ps: seq<Pulse>) returns (i: nat)
    requires DecodeFrom(ps).status == Ok
    ensures IsFrameAt(ps, i, DecodeFrom(ps).data)
    decreases |ps|
  {
    hide DecodeFrom, FrameOf, ResponseOf, IsFrameAt;
    DecodesExactly(ps);
    if ps[0].active {
      OkFromSof(ps);
      i := 0;
    } else {
      DecodesExactly(ps[1..]);
      var k := OkIsEncoded(ps[1..]);
      i := k + 1;
      LaterFrame(ps, k, DecodeFrom(ps).data);
    }
  }

  lemma {:induction false} LaterFrame(ps: seq<Pulse>, k: nat, d: seq<Octet>)
    requires ps != [] && !ps[0].active && IsFrameAt(ps[1..], k, d)
    ensures IsFrameAt(ps, k + 1, d)
  {
    forall j | 0 <= j < k + 1 ensures !ps[j].active {
      if j > 0 {
        assert ps[j] == ps[1..][..k][j - 1];
      }
    }
    assert ps[1..][k..] == ps[k + 1..];
  }

  lemma {:induction false} OkFromSof(ps: seq<Pulse>)
    requires ps != [] && ps[0].active && Said(ps).status == Ok
    ensures IsFrameAt(ps, 0, Said(ps).data)
  {
    hide BitsOf, PackAll, Crc, Distorted, FrameOf, ResponseOf, Judged, IsAnyBit, IsBit;
    var bits := BitsOf(ps[1..], false);
    OkIsFrame(ps);
    OkFrame(ps[1..]);
    OkBytes(bits);
    FrontDistorted(ps, bits, WholeBytes(bits));
    assert ps[0..] == ps;
  }

  /** Neither a response alone nor anything else that opens a capture is OK. */
  lemma {:induction false} OkIsFrame(ps: seq<Pulse>)
    requires ps != [] && ps[0].active && Said(ps).status == Ok
    ensures IsThird(ps[0].us) && Said(ps) == FrameOf([], ps[1..])
  {
    hide BitsOf, FrameOf, WholeBytes, EndAt;
    FaultIsNotOk(ps);
  }

  lemma {:induction false} FaultIsNotOk(ps: seq<Pulse>)
    ensures forall p: Pulse, active: bool :: EndAt(p, active).Fault? ==> EndAt(p, active).status != Ok
  {
  }

  lemma {:induction false} OkBytes(bits: seq<bool>)
    requires Judged(bits) == Ok
    ensures var d := WholeBytes(bits); |d| >= 2 && CrcCheck(d) && AllBits(d) == bits
  {
    hide PackAll, Crc;
    Room(bits);
    PackedWhole(bits);
  }

  lemma {:induction false} FrontDistorted(ps: seq<Pulse>, bits: seq<bool>, d: seq<Octet>)
    requires ps != [] && ps[0].active && IsThird(ps[0].us) && bits == BitsOf(ps[1..], false) && AllBits(d) == bits
    ensures 1 + 8 * |d| <= |ps| && Distorted(ps[..1 + 8 * |d|], d)
  {
    hide BitsOf, Distorted, AllBits, IsBit;
    var q := ps[..1 + 8 * |d|];
    CarriedBits(ps[1..], bits);
    assert q[1..] == ps[1..][..|bits|];
    DistortedBits(q, d);
  }

  lemma {:induction false} CarriedBits(ps: seq<Pulse>, bits: seq<bool>)
    requires bits == BitsOf(ps, false)
    ensures Carry(ps[..|bits|], bits)
  {
    forall k | 0 <= k < |bits| ensures IsBit(ps[..|bits|][k], k % 2 == 1, bits[k]) {
      assert IsBit(ps[k], false == (k % 2 == 0), bits[k]);
    }
  }

  lemma {:induction false} OkFrame(ps: seq<Pulse>)
    requires FrameOf([], ps).status == Ok
    ensures var bits := BitsOf(ps, false); Judged(bits) == Ok && FrameOf([], ps).data == WholeBytes(bits)
  {
    hide BitsOf, Judged, WholeBytes;
    var bits := BitsOf(ps, false);
    assert [] + bits == bits;
  }
}
