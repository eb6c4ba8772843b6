/** What each verdict of the batch decoder says about the capture, by the windows
    of SAE J1850, Table 3, in microseconds. */
module PwmVerdicts {
  import opened J1850Crc
  import opened J1850Bits
  import opened J1850Capture
  import opened PwmCodec
  import opened PwmStream
  import Agree = PwmAgreement

  // ---- What a capture says ----

  /** The widths of the legal bits in front, behind an active phase of width
      `prev`: each behind a passive phase, and the right distance from the
      rising edge before. */
  ghost function WidthsOf(prev: nat, ps: seq<Pulse>, first: bool): (ws: seq<nat>)
    ensures 2 * |ws| <= |ps|
    decreases |ps|
  {
    if |ps| < 2 || ps[0].active || !IsBitCell(ps[1].us, prev + ps[0].us, first) then []
    else [ps[1].us] + WidthsOf(ps[1].us, ps[2..], false)
  }

  ghost function Last(prev: nat, ws: seq<nat>): (w: nat) { if ws == [] then prev else ws[|ws| - 1] }

  ghost function WholeBytes(bits: seq<bool>): (d: seq<Octet>) { PackAll(bits).bytes }

  /** Whole bytes, two or more, of which the last is the CRC of the others. */
  ghost function Judged(bits: seq<bool>): (s: Status) {
    var d := WholeBytes(bits);
    if |bits| % 8 != 0 then Framing
    else if |bits| < 16 then TooShort
    else if d[|d| - 1] != Crc(d[..|d| - 1]) then BadCrc
    else Ok
  }

  /** A SOF or a break inside a frame, or no symbol at all. */
  function WrongWidth(us: nat): (s: Status) { if 27 <= us <= 43 then BadTiming else BadSymbol }

  /** Behind a SOF of width `sof`, with `seen` read already. */
  ghost function FrameOf(sof: nat, seen: seq<nat>, ps: seq<Pulse>): (r: Decoded) {
    var more := WidthsOf(Last(sof, seen), ps, seen == []);
    FrameWith(sof, seen + more, ps[2 * |more|..])
  }

  /** These bits, and the pulses from the first edge on that is none. */
  ghost function FrameWith(sof: nat, ws: seq<nat>, rest: seq<Pulse>): (r: Decoded) {
    var bits := BitsIn(ws);
    if |ws| > 96 then Decoded(TooLong, WholeBytes(bits[..96]), [], false, 0, ws[95])
    else FrameEnd(ws, Decoded(Judged(bits), WholeBytes(bits), [], false, 0, Last(sof, ws)), rest)
  }

  ghost function FrameEnd(ws: seq<nat>, r: Decoded, rest: seq<Pulse>): (r': Decoded) {
    if rest == [] then r
    else if rest[0].active then r.(status := BadSymbol)
    else if |rest| == 1 then r
    else
      var (gap, us) := (r.lastActive + rest[0].us, rest[1].us);
      if gap >= 63 then r
      else if ws == [] then r.(status := if 42 <= gap <= 54 then WrongWidth(us) else BadTiming)
      else if gap >= 42 then
        if |ws| % 8 != 0 then r.(status := Framing)
        else
          var ended := r.(eod := true, eodGap := gap);
          if IsBitWidth(us) then ResponseOf(ended, [us], rest[2..]) else ended.(status := WrongWidth(us))
      else r.(status := if 21 <= gap <= 27 then WrongWidth(us) else BadTiming)
  }

  /** The bits of a response, of which there is at least one. */
  ghost function ResponseOf(r: Decoded, seen: seq<nat>, ps: seq<Pulse>): (r': Decoded)
    requires seen != []
  {
    var more := WidthsOf(Last(0, seen), ps, false);
    ResponseWith(r, seen + more, ps[2 * |more|..])
  }

  ghost function ResponseWith(r: Decoded, ws: seq<nat>, rest: seq<Pulse>): (r': Decoded)
    requires ws != []
  {
    var bits := BitsIn(ws);
    if |ws| > 96 then r.(status := TooLong, ifr := WholeBytes(bits[..96]), lastActive := ws[95])
    else ResponseEnd(|ws|, r.(ifr := WholeBytes(bits), lastActive := Last(0, ws)), rest)
  }

  ghost function ResponseEnd(n: nat, r: Decoded, rest: seq<Pulse>): (r': Decoded) {
    if rest != [] && rest[0].active then r.(status := BadSymbol)
    else if |rest| < 2 || r.lastActive + rest[0].us >= 42 then (if n % 8 != 0 then r.(status := Framing) else r)
    else r.(status := if 21 <= r.lastActive + rest[0].us <= 27 then WrongWidth(rest[1].us) else BadTiming)
  }

  /** What a capture says from its first active pulse on. */
  ghost function Said(ps: seq<Pulse>): (r: Decoded)
    decreases |ps|
  {
    if ps == [] then Decoded(Empty, [], [], false, 0, 0)
    else if !ps[0].active then Said(ps[1..])
    else
      var us := ps[0].us;
      if IsSof(us) then FrameOf(us, [], ps[1..])
      else if IsBitWidth(us) then ResponseOf(Decoded(IfrOnly, [], [], false, 0, us), [us], ps[1..])
      else Decoded(if 35 <= us <= 43 then Break else NoSof, [], [], false, 0, 0)
  }

  // ---- The decoder says the same ----

  lemma {:induction false} Windows(us: nat)
    ensures Classify(us).One? <==> IsBitWidth(us) && ReadsOne(us)
    ensures Classify(us).Zero? <==> IsBitWidth(us) && !ReadsOne(us)
    ensures Classify(us).Sof? <==> IsSof(us)
    ensures Classify(us).Brk? <==> 35 <= us <= 43
    ensures !IsBitWidth(us) ==> WrongWidth(us) == (if Classify(us).Bad? then BadSymbol else BadTiming)
  {
  }

  lemma {:induction false} WidthsNext(prev: nat, ps: seq<Pulse>, first: bool)
    ensures var cell := |ps| >= 2 && !ps[0].active && IsBitCell(ps[1].us, prev + ps[0].us, first);
            WidthsOf(prev, ps, first) == if cell then [ps[1].us] + WidthsOf(ps[1].us, ps[2..], false) else []
  {
  }

  lemma {:induction false} BitsNext(ws: seq<nat>, us: nat)
    ensures BitsIn(ws + [us]) == BitsIn(ws) + [ReadsOne(us)]
    ensures PackAll(BitsIn(ws + [us])) == Push(PackAll(BitsIn(ws)), ReadsOne(us))
  {
    PackNext(BitsIn(ws), ReadsOne(us));
    assert BitsIn(ws + [us]) == BitsIn(ws) + [ReadsOne(us)];
  }

  lemma {:induction false} BitsFront(ws: seq<nat>, more: seq<nat>)
    ensures BitsIn(ws + more)[..|ws|] == BitsIn(ws)
  {
  }

  lemma {:induction false} Room(bits: seq<bool>)
    ensures Full(PackAll(bits)) <==> |bits| % 8 == 0 && |bits| >= 96
    ensures PackAll(bits).count == |bits| % 8
    ensures |bits| % 8 == 0 ==> 8 * |WholeBytes(bits)| == |bits|
  {
  }

  lemma {:induction false} Further(ps: seq<Pulse>, n: nat)
    requires n + 2 <= |ps|
    ensures ps[2..][n..] == ps[n + 2..]
  {
  }

  lemma {:induction false} Regroup(seen: seq<nat>, us: nat, more: seq<nat>)
    ensures seen + ([us] + more) == (seen + [us]) + more
  {
  }

  /** A legal bit comes next. */
  ghost predicate CellNext(prev: nat, ps: seq<Pulse>, first: bool) {
    |ps| >= 2 && !ps[0].active && IsBitCell(ps[1].us, prev + ps[0].us, first)
  }

  // ---- Responses ----

  ghost predicate HasReply(d: Inside, r: Decoded, ws: seq<nat>) {
    && ws != [] && |ws| <= 96 && d.data.bytes == r.data && d.data.count == 0 && d.ifr == PackAll(BitsIn(ws))
    && d.inIfr && !d.afterSof && d.prev == Last(0, ws) && d.eod == r.eod && d.eodGap == r.eodGap
  }

  /** The verdict that `r` carries is the one on its data, or on none. */
  ghost predicate Carries(r: Decoded, opening: Status) {
    && r.ifr == []
    && if opening == IfrOnly then r.status == IfrOnly
       else opening == Ok
            && r.status == (if |r.data| < 2 then TooShort else if !CrcCheck(r.data) then BadCrc else Ok)
  }

  lemma {:induction false} ResponseSaid(d: Inside, r: Decoded, seen: seq<nat>, opening: Status, ps: seq<Pulse>)
    requires HasReply(d, r, seen) && Carries(r, opening)
    ensures DecodeBody(d, opening, ps) == ResponseOf(r, seen, ps)
    decreases |ps|
  {
    hide PackAll, WholeBytes, WidthsOf, ResponseWith, TakeGap, TakeActive, Carries, Verdict, Report, BitsIn, IsBitCell;
    WidthsNext(Last(0, seen), ps, false);
    if CellNext(Last(0, seen), ps, false) {
      TakesReply(d, r, seen, ps[0].us, ps[1].us);
      if |seen| < 96 {
        var d' := TakeActive(TakeGap(d, d.prev + ps[0].us).d, ps[1].us).d;
        ResponseSaid(d', r, seen + [ps[1].us], opening, ps[2..]);
      }
      ResponseGrows(r, seen, ps);
    } else {
      assert seen + [] == seen && ps[0..] == ps;
      ResponseStops(d, r, seen, opening, ps);
    }
  }

  lemma {:induction false} TakesReply(d: Inside, r: Decoded, seen: seq<nat>, passive: nat, us: nat)
    requires HasReply(d, r, seen) && IsBitCell(us, Last(0, seen) + passive, false)
    ensures var t := TakeGap(d, d.prev + passive);
            && t.Go? && var u := TakeActive(t.d, us);
            if |seen| == 96 then
              u.Stop? && Report(u.d, u.status)
                == r.(status := TooLong, ifr := WholeBytes(BitsIn(seen)), lastActive := Last(0, seen))
            else u.Go? && HasReply(u.d, r, seen + [us])
  {
    hide PackAll, Push, Classify, BitsIn;
    Windows(us);
    Room(BitsIn(seen));
    BitsNext(seen, us);
  }

  lemma {:induction false} ResponseGrows(r: Decoded, seen: seq<nat>, ps: seq<Pulse>)
    requires seen != [] && |seen| <= 96 && CellNext(Last(0, seen), ps, false)
    ensures ResponseOf(r, seen, ps) ==
      if |seen| == 96 then r.(status := TooLong, ifr := WholeBytes(BitsIn(seen)), lastActive := Last(0, seen))
      else ResponseOf(r, seen + [ps[1].us], ps[2..])
  {
    hide WholeBytes, WidthsOf, ResponseWith, IsBitCell, BitsIn;
    var us := ps[1].us;
    WidthsNext(Last(0, seen), ps, false);
    var more := WidthsOf(us, ps[2..], false);
    Regroup(seen, us, more);
    Further(ps, 2 * |more|);
    if |seen| == 96 {
      ResponseFull(r, seen, [us] + more, ps[2 + 2 * |more|..]);
    }
  }

  lemma {:induction false} ResponseFull(r: Decoded, seen: seq<nat>, more: seq<nat>, rest: seq<Pulse>)
    requires |seen| == 96 && more != []
    ensures ResponseWith(r, seen + more, rest)
         == r.(status := TooLong, ifr := WholeBytes(BitsIn(seen)), lastActive := Last(0, seen))
  {
    hide WholeBytes, BitsIn;
    BitsFront(seen, more);
  }

  /** No further bit: the response ends here, or with a fault. */
  lemma {:induction false} ResponseStops(d: Inside, r: Decoded, seen: seq<nat>, opening: Status, ps: seq<Pulse>)
    requires HasReply(d, r, seen) && Carries(r, opening) && !CellNext(Last(0, seen), ps, false)
    ensures DecodeBody(d, opening, ps) == ResponseWith(r, seen, ps)
  {
    hide PackAll, Push, CrcCheck, Crc, Classify, BitsIn;
    Room(BitsIn(seen));
    if |ps| >= 2 {
      Windows(ps[1].us);
    }
  }

  // ---- Frames ----

  ghost predicate HasBits(d: Inside, sof: nat, ws: seq<nat>) {
    d == Inside(PackAll(BitsIn(ws)), EMPTY, false, ws == [], Last(sof, ws), false, 0) && |ws| <= 96
  }

  lemma {:induction false} FrameSaid(d: Inside, sof: nat, seen: seq<nat>, ps: seq<Pulse>)
    requires HasBits(d, sof, seen)
    ensures DecodeBody(d, Ok, ps) == FrameOf(sof, seen, ps)
    decreases |ps|
  {
    hide PackAll, WholeBytes, WidthsOf, FrameWith, TakeGap, TakeActive, Verdict, Report, BitsIn, IsBitCell;
    WidthsNext(Last(sof, seen), ps, seen == []);
    if CellNext(Last(sof, seen), ps, seen == []) {
      TakesBit(d, sof, seen, ps[0].us, ps[1].us);
      if |seen| < 96 {
        var d' := TakeActive(TakeGap(d, d.prev + ps[0].us).d, ps[1].us).d;
        FrameSaid(d', sof, seen + [ps[1].us], ps[2..]);
      }
      FrameGrows(sof, seen, ps);
    } else {
      assert seen + [] == seen && ps[0..] == ps;
      FrameStops(d, sof, seen, ps);
    }
  }

  lemma {:induction false} TakesBit(d: Inside, sof: nat, seen: seq<nat>, passive: nat, us: nat)
    requires HasBits(d, sof, seen) && IsBitCell(us, Last(sof, seen) + passive, seen == [])
    ensures var t := TakeGap(d, d.prev + passive);
            && t.Go? && var u := TakeActive(t.d, us);
            if |seen| == 96 then
              u.Stop? && Report(u.d, u.status)
                == Decoded(TooLong, WholeBytes(BitsIn(seen)), [], false, 0, Last(sof, seen))
            else u.Go? && HasBits(u.d, sof, seen + [us])
  {
    hide PackAll, Push, Classify, BitsIn;
    Windows(us);
    Room(BitsIn(seen));
    BitsNext(seen, us);
  }

  lemma {:induction false} FrameGrows(sof: nat, seen: seq<nat>, ps: seq<Pulse>)
    requires |seen| <= 96 && CellNext(Last(sof, seen), ps, seen == [])
    ensures FrameOf(sof, seen, ps) ==
      if |seen| == 96 then Decoded(TooLong, WholeBytes(BitsIn(seen)), [], false, 0, Last(sof, seen))
      else FrameOf(sof, seen + [ps[1].us], ps[2..])
  {
    hide WholeBytes, WidthsOf, FrameWith, IsBitCell, BitsIn;
    var us := ps[1].us;
    WidthsNext(Last(sof, seen), ps, seen == []);
    var more := WidthsOf(us, ps[2..], false);
    Regroup(seen, us, more);
    Further(ps, 2 * |more|);
    if |seen| == 96 {
      FrameFull(sof, seen, [us] + more, ps[2 + 2 * |more|..]);
    }
  }

  lemma {:induction false} FrameFull(sof: nat, seen: seq<nat>, more: seq<nat>, rest: seq<Pulse>)
    requires |seen| == 96 && more != []
    ensures FrameWith(sof, seen + more, rest)
         == Decoded(TooLong, WholeBytes(BitsIn(seen)), [], false, 0, Last(sof, seen))
  {
    hide WholeBytes, BitsIn, FrameEnd, Judged;
    BitsFront(seen, more);
  }

  /** No further bit: an end of the frame, of its data, or a fault. */
  lemma {:induction false} FrameStops(d: Inside, sof: nat, seen: seq<nat>, ps: seq<Pulse>)
    requires HasBits(d, sof, seen) && !CellNext(Last(sof, seen), ps, seen == [])
    ensures DecodeBody(d, Ok, ps) == FrameWith(sof, seen, ps)
  {
    hide PackAll, Push, Crc, Classify, BitsIn, ResponseOf;
    var bits := BitsIn(seen);
    Room(bits);
    EmptyPacker();
    if |ps| >= 2 {
      Windows(ps[1].us);
      var gap := Last(sof, seen) + ps[0].us;
      if !ps[0].active && 42 <= gap < 63 && seen != [] && |seen| % 8 == 0 && IsBitWidth(ps[1].us) {
        ReplyOpens(d, sof, seen, ps);
      }
    }
  }

  lemma {:induction false} EmptyPacker()
    ensures PackAll([]) == EMPTY && PackAll(BitsIn([])) == EMPTY
  {
  }

  lemma {:induction false} ReplyOpens(d: Inside, sof: nat, seen: seq<nat>, ps: seq<Pulse>)
    requires HasBits(d, sof, seen) && |ps| >= 2 && !ps[0].active && seen != [] && |seen| % 8 == 0
    requires 42 <= Last(sof, seen) + ps[0].us < 63 && IsBitWidth(ps[1].us)
    ensures var bits := BitsIn(seen);
            var gap := Last(sof, seen) + ps[0].us;
            var r := Decoded(Judged(bits), WholeBytes(bits), [], true, gap, Last(sof, seen));
            DecodeBody(d, Ok, ps) == ResponseOf(r, [ps[1].us], ps[2..])
  {
    hide PackAll, Push, Crc, Classify, BitsIn, ResponseOf, Verdict, Report;
    var bits, us := BitsIn(seen), ps[1].us;
    var gap := Last(sof, seen) + ps[0].us;
    var r := Decoded(Judged(bits), WholeBytes(bits), [], true, gap, Last(sof, seen));
    Room(bits);
    Windows(us);
    BitsNext([], us);
    assert [] + [us] == [us];
    EmptyPacker();
    var t := TakeActive(TakeGap(d, gap).d, us);
    ResponseSaid(t.d, r, [us], Ok, ps[2..]);
  }

  /** For every capture whatever: status, data, response and measurements are
      those that the windows of the standard give its pulses. */
  lemma {:induction false} DecodesExactly(ps: seq<Pulse>)
    ensures DecodeFrom(ps) == Said(ps)
    decreases |ps|
  {
    hide PackAll, Push, Classify, FrameOf, ResponseOf, DecodeBody, BitsIn;
    if ps != [] {
      var us := ps[0].us;
      EmptyPacker();
      Windows(us);
      if !ps[0].active {
        DecodesExactly(ps[1..]);
      } else if IsSof(us) {
        FrameSaid(START.(prev := us), us, [], ps[1..]);
      } else if IsBitWidth(us) {
        BitsNext([], us);
        assert [] + [us] == [us];
        var d := START.(prev := us, inIfr := true, afterSof := false, ifr := Push(EMPTY, ReadsOne(us)));
        ResponseSaid(d, Decoded(IfrOnly, [], [], false, 0, us), [us], IfrOnly, ps[1..]);
      }
    }
  }

  // ---- The converse ----

  /** Cell `k` of a capture that opens with an active phase: a passive phase, and
      a legal active one of width `w` at the right distance from the one before. */
  ghost predicate CellAt(ps: seq<Pulse>, k: nat, w: nat, first: bool) {
    && 2 * k + 2 < |ps| && !ps[2 * k + 1].active && w == ps[2 * k + 2].us
    && IsBitCell(w, ps[2 * k].us + ps[2 * k + 1].us, first)
  }

  ghost predicate Legal(ps: seq<Pulse>, ws: seq<nat>, first: bool) {
    forall k :: 0 <= k < |ws| ==> CellAt(ps, k, ws[k], first && k == 0)
  }

  lemma {:induction false} WidthsAt(p: Pulse, ps: seq<Pulse>, first: bool)
    ensures Legal([p] + ps, WidthsOf(p.us, ps, first), first)
    decreases |ps|
  {
    hide WidthsOf, CellAt;
    var ws := WidthsOf(p.us, ps, first);
    WidthsNext(p.us, ps, first);
    if ws != [] {
      WidthsAt(ps[1], ps[2..], false);
      var rest := WidthsOf(ps[1].us, ps[2..], false);
      forall k | 0 <= k < |ws| ensures CellAt([p] + ps, k, ws[k], first && k == 0) {
        if k == 0 {
          FirstCell(p, ps, first);
        } else {
          assert CellAt([ps[1]] + ps[2..], k - 1, rest[k - 1], false);
          LaterCell(p, ps, k - 1, rest[k - 1]);
        }
      }
    }
  }

  lemma {:induction false} FirstCell(p: Pulse, ps: seq<Pulse>, first: bool)
    requires |ps| >= 2 && !ps[0].active && IsBitCell(ps[1].us, p.us + ps[0].us, first)
    ensures CellAt([p] + ps, 0, ps[1].us, first)
  {
  }

  lemma {:induction false} LaterCell(p: Pulse, ps: seq<Pulse>, k: nat, w: nat)
    requires |ps| >= 2 && CellAt([ps[1]] + ps[2..], k, w, false)
    ensures CellAt([p] + ps, k + 1, w, false)
  {
    var all, rest := [p] + ps, [ps[1]] + ps[2..];
    assert all[2..] == rest;
    assert all[2 * k + 2] == rest[2 * k] && all[2 * k + 3] == rest[2 * k + 1] && all[2 * k + 4] == rest[2 * k + 2];
  }

  /** Behind `i` idle pulses the capture holds frame `d`: a SOF, a legal bit cell
      for each of its bits, and the last byte is the CRC of the others. */
  ghost predicate IsFrameAt(ps: seq<Pulse>, i: nat, d: seq<Octet>) {
    && i < |ps| && AllPassive(ps[..i]) && ps[i].active && IsSof(ps[i].us)
    && |d| >= 2 && d[|d| - 1] == Crc(d[..|d| - 1])
    && exists ws: seq<nat> :: Legal(ps[i..], ws, true) && BitsIn(ws) == AllBits(d)
  }

  /** A verdict of OK means that the capture really is this frame. */
  lemma {:induction false} OkIsFrame(ps: seq<Pulse>) returns (i: nat)
    requires DecodeFrom(ps).status == Ok
    ensures IsFrameAt(ps, i, DecodeFrom(ps).data)
    decreases |ps|
  {
    hide DecodeFrom, FrameOf, ResponseOf, IsFrameAt;
    DecodesExactly(ps);
    if ps[0].active {
      OkFromSof(ps);
      i := 0;
    } else {
      DecodesExactly(ps[1..]);
      var k := OkIsFrame(ps[1..]);
      i := k + 1;
      LaterFrame(ps, k, DecodeFrom(ps).data);
    }
  }

  lemma {:induction false} LaterFrame(ps: seq<Pulse>, k: nat, d: seq<Octet>)
    requires ps != [] && !ps[0].active && IsFrameAt(ps[1..], k, d)
    ensures IsFrameAt(ps, k + 1, d)
  {
    hide Legal, BitsIn, AllBits, Crc;
    forall j | 0 <= j < k + 1 ensures !ps[j].active {
      if j > 0 {
        assert ps[j] == ps[1..][..k][j - 1];
      }
    }
    assert ps[1..][k..] == ps[k + 1..];
  }

  lemma {:induction false} OkFromSof(ps: seq<Pulse>)
    requires ps != [] && ps[0].active && Said(ps).status == Ok
    ensures IsFrameAt(ps, 0, Said(ps).data)
  {
    hide WidthsOf, BitsIn, WholeBytes, FrameOf, ResponseOf, Judged, AllBits, Legal;
    var ws := WidthsOf(ps[0].us, ps[1..], true);
    OkIsSof(ps);
    OkWidths(ps[0].us, ps[1..]);
    OkBytes(BitsIn(ws));
    WidthsAt(ps[0], ps[1..], true);
    assert [ps[0]] + ps[1..] == ps == ps[0..];
  }

  /** Neither a response alone nor anything else that opens a capture is OK. */
  lemma {:induction false} OkIsSof(ps: seq<Pulse>)
    requires ps != [] && ps[0].active && Said(ps).status == Ok
    ensures IsSof(ps[0].us) && Said(ps) == FrameOf(ps[0].us, [], ps[1..])
  {
    hide WidthsOf, FrameOf, WholeBytes, BitsIn;
  }

  lemma {:induction false} OkWidths(sof: nat, ps: seq<Pulse>)
    requires FrameOf(sof, [], ps).status == Ok
    ensures var ws := WidthsOf(sof, ps, true);
            Judged(BitsIn(ws)) == Ok && FrameOf(sof, [], ps).data == WholeBytes(BitsIn(ws))
  {
    hide WidthsOf, BitsIn, Judged, WholeBytes;
    var ws := WidthsOf(sof, ps, true);
    assert [] + ws == ws;
  }

  lemma {:induction false} OkBytes(bits: seq<bool>)
    requires Judged(bits) == Ok
    ensures var d := WholeBytes(bits);
            |d| >= 2 && d[|d| - 1] == Crc(d[..|d| - 1]) && AllBits(d) == bits && 8 * |d| == |bits|
  {
    hide PackAll, Crc;
    Room(bits);
    PackedWhole(bits);
  }

  // ---- Responses, there and back ----

  ghost function Actives(es: seq<Edge>): (ws: seq<nat>)
    ensures |ws| == |es|
  {
    if es == [] then [] else [es[0].active] + Actives(es[1..])
  }

  /** The edges of a response: the first at the distance of an end of data. */
  ghost predicate IsReply(es: seq<Edge>, bits: seq<bool>) {
    && es != [] && |bits| == |es| && 42 <= es[0].gap <= 62 && IsBitWidth(es[0].active)
    && (ReadsOne(es[0].active) <==> bits[0]) && Agree.Legal(es[1..], bits[1..], false)
  }

  /** What may follow the last active phase of a response. */
  ghost predicate ClosesReply(last: nat, tail: seq<Pulse>) {
    tail == [] || (!tail[0].active && (|tail| == 1 || last + tail[0].us >= 42))
  }

  lemma {:induction false} BitsOfActives(es: seq<Edge>, bits: seq<bool>)
    requires |es| == |bits| && forall k :: 0 <= k < |es| ==> (ReadsOne(es[k].active) <==> bits[k])
    ensures BitsIn(Actives(es)) == bits
  {
    hide BitsIn;
    forall k | 0 <= k < |es| ensures BitsIn(Actives(es))[k] == bits[k] {
      ActiveAt(es, k);
    }
  }

  lemma {:induction false} ActiveAt(es: seq<Edge>, k: nat)
    requires k < |es|
    ensures Actives(es)[k] == es[k].active
  {
    if k > 0 {
      ActiveAt(es[1..], k - 1);
    }
  }

  lemma {:induction false} LegalReads(es: seq<Edge>, bits: seq<bool>, first: bool)
    requires Agree.Legal(es, bits, first)
    ensures |es| == |bits| && forall k :: 0 <= k < |es| ==> (ReadsOne(es[k].active) <==> bits[k])
    decreases |es|
  {
    if es != [] {
      LegalReads(es[1..], bits[1..], false);
      assert forall k :: 1 <= k < |es| ==> es[k] == es[1..][k - 1] && bits[k] == bits[1..][k - 1];
    }
  }

  ghost function After(prev: nat, es: seq<Edge>): (w: nat) { if es == [] then prev else es[|es| - 1].active }

  lemma {:induction false} ReadsBack(prev: nat, es: seq<Edge>, bits: seq<bool>, first: bool, tail: seq<Pulse>)
    requires Agree.Legal(es, bits, first) && prev <= (if first then 34 else 18)
    requires !CellNext(After(prev, es), tail, first && es == [])
    ensures WidthsOf(prev, Agree.Flat(prev, es) + tail, first) == Actives(es)
    decreases |es|
  {
    hide WidthsOf;
    var ps := Agree.Flat(prev, es) + tail;
    WidthsNext(prev, ps, first);
    if es == [] {
      assert ps == tail;
    } else {
      var a := es[0].active;
      assert ps[0] == Pulse(false, es[0].gap - prev) && ps[1] == Pulse(true, a);
      assert ps[2..] == Agree.Flat(a, es[1..]) + tail;
      assert After(prev, es) == After(a, es[1..]);
      ReadsBack(a, es[1..], bits[1..], false, tail);
    }
  }

  /** In-frame response: behind a frame and its end of data, any whole bytes that
      a responder sends come back too, with the distance they came at. */
  lemma {:induction false} DecodesResponse(sof: nat, es: seq<Edge>, data: seq<Octet>, rs: seq<Edge>,
                                           reply: seq<Octet>, tail: seq<Pulse>)
    requires IsSof(sof) && 2 <= |data| <= MAX_FRAME && CrcCheck(data) && 1 <= |reply| <= MAX_FRAME
    requires Agree.Legal(es, AllBits(data), true) && IsReply(rs, AllBits(reply))
    requires ClosesReply(After(0, rs), tail)
    ensures DecodeFrom([Pulse(true, sof)] + Agree.Flat(sof, es) + Agree.Flat(After(sof, es), rs) + tail)
         == Decoded(Ok, data, reply, true, rs[0].gap, After(0, rs))
  {
    hide FrameOf, ResponseOf, AllBits, Said, Agree.Legal, Agree.Flat, CrcCheck, Crc, Judged, WholeBytes, DecodeFrom;
    hide IsReply, ClosesReply;
    var last := After(sof, es);
    var replied := Agree.Flat(last, rs) + tail;
    var ps := [Pulse(true, sof)] + Agree.Flat(sof, es) + Agree.Flat(last, rs) + tail;
    assert ps[1..] == Agree.Flat(sof, es) + replied;
    DecodesExactly(ps);
    SofOpens(ps);
    FrameEnds(sof, es, data, rs, reply, tail);
  }

  lemma {:induction false} SofOpens(ps: seq<Pulse>)
    requires ps != [] && ps[0].active && IsSof(ps[0].us)
    ensures Said(ps) == FrameOf(ps[0].us, [], ps[1..])
  {
  }

  lemma {:induction false} FrameEnds(sof: nat, es: seq<Edge>, data: seq<Octet>, rs: seq<Edge>, reply: seq<Octet>,
                                     tail: seq<Pulse>)
    requires IsSof(sof) && 2 <= |data| <= MAX_FRAME && CrcCheck(data) && 1 <= |reply| <= MAX_FRAME
    requires Agree.Legal(es, AllBits(data), true) && IsReply(rs, AllBits(reply))
    requires ClosesReply(After(0, rs), tail)
    ensures FrameOf(sof, [], Agree.Flat(sof, es) + (Agree.Flat(After(sof, es), rs) + tail))
         == Decoded(Ok, data, reply, true, rs[0].gap, After(0, rs))
  {
    hide ResponseOf, AllBits, Agree.Legal, Agree.Flat, CrcCheck, Crc, Judged, WholeBytes, BitsIn, WidthsOf, Actives;
    hide ClosesReply, FrameEnd;
    var bits := AllBits(data);
    var last := After(sof, es);
    var rest := Agree.Flat(last, rs[1..]);
    LegalReads(es, bits, true);
    BitsOfActives(es, bits);
    LastIsLegal(es, bits);
    ReplyFlat(last, rs, tail);
    var replied := Agree.Flat(last, rs) + tail;
    ReadsBack(sof, es, bits, true, replied);
    assert [] + Actives(es) == Actives(es);
    assert (Agree.Flat(sof, es) + replied)[2 * |es|..] == replied;
    JudgedOk(data);
    ActivesLast(sof, es);
    DataEnds(Actives(es), data, rs, reply, tail);
  }

  lemma {:induction false} ActivesLast(prev: nat, es: seq<Edge>)
    ensures Last(prev, Actives(es)) == After(prev, es)
  {
    if es != [] {
      ActiveAt(es, |es| - 1);
    }
  }

  lemma {:induction false} LastIsLegal(es: seq<Edge>, bits: seq<bool>)
    requires Agree.Legal(es, bits, true) && es != []
    ensures IsBitWidth(es[|es| - 1].active)
  {
    Agree.LegalLast(es, bits, true);
  }

  lemma {:induction false} JudgedOk(data: seq<Octet>)
    requires |data| >= 2 && CrcCheck(data)
    ensures WholeBytes(AllBits(data)) == data && Judged(AllBits(data)) == Ok
  {
    hide AllBits, Crc;
    PackUnpacks(data);
    Room(AllBits(data));
  }

  /** The first two pulses of a response. */
  lemma {:induction false} ReplyFlat(last: nat, rs: seq<Edge>, tail: seq<Pulse>)
    requires rs != [] && 42 <= rs[0].gap <= 62 && last <= 18
    ensures var ps := Agree.Flat(last, rs) + tail;
            && |ps| >= 2 && ps[0] == Pulse(false, rs[0].gap - last) && ps[1] == Pulse(true, rs[0].active)
            && ps[2..] == Agree.Flat(rs[0].active, rs[1..]) + tail
            && !CellNext(last, ps, false)
  {
  }

  lemma {:induction false} DataEnds(ws: seq<nat>, data: seq<Octet>, rs: seq<Edge>, reply: seq<Octet>, tail: seq<Pulse>)
    requires 2 <= |data| <= MAX_FRAME && 1 <= |reply| <= MAX_FRAME && |ws| == 8 * |data|
    requires IsReply(rs, AllBits(reply)) && Last(0, ws) <= 18 && ClosesReply(After(0, rs), tail)
    ensures FrameEnd(ws, Decoded(Ok, data, [], false, 0, Last(0, ws)), Agree.Flat(Last(0, ws), rs) + tail)
         == Decoded(Ok, data, reply, true, rs[0].gap, After(0, rs))
  {
    hide AllBits, Agree.Legal, Agree.Flat, ResponseOf, ClosesReply;
    ReplyFlat(Last(0, ws), rs, tail);
    ReplyEnds(Decoded(Ok, data, [], true, rs[0].gap, Last(0, ws)), rs, reply, tail);
  }

  lemma {:induction false} ReplyEnds(r: Decoded, rs: seq<Edge>, reply: seq<Octet>, tail: seq<Pulse>)
    requires r.status == Ok && 1 <= |reply| <= MAX_FRAME && IsReply(rs, AllBits(reply))
    requires ClosesReply(After(0, rs), tail)
    ensures ResponseOf(r, [rs[0].active], Agree.Flat(rs[0].active, rs[1..]) + tail)
         == r.(ifr := reply, lastActive := After(0, rs))
  {
    hide AllBits, Agree.Legal, Agree.Flat, WidthsOf, BitsIn, WholeBytes;
    var bits := AllBits(reply);
    var a, es := rs[0].active, rs[1..];
    LegalReads(es, bits[1..], false);
    assert forall k :: 1 <= k < |rs| ==> rs[k] == es[k - 1] && bits[k] == bits[1..][k - 1];
    BitsOfActives(rs, bits);
    assert Actives(rs) == [a] + Actives(es);
    assert After(a, es) == After(0, rs);
    ReadsBack(a, es, bits[1..], false, tail);
    assert (Agree.Flat(a, es) + tail)[2 * |es|..] == tail;
    ActivesLast(0, rs);
    ReplyBytes(reply);
  }

  lemma {:induction false} ReplyBytes(reply: seq<Octet>)
    ensures WholeBytes(AllBits(reply)) == reply
  {
    PackUnpacks(reply);
  }
}
