/** The three PWM decoders read the same frames: batch against jittered
    captures, streaming against batch, and quick against batch. */
module PwmAgreement {
  import opened J1850Crc
  import opened J1850Bits
  import opened J1850Capture
  import opened PwmCodec
  import opened PwmStream

  // ---- Batch decoding of legal edges ----

  /** The capture of these edges behind an active phase of width `prev`. */
  ghost function Flat(prev: nat, es: seq<Edge>): (ps: seq<Pulse>)
    ensures |ps| == 2 * |es|
    decreases |es|
  {
    if es == [] then []
    else
      var passive := es[0].gap - prev;
      [Pulse(false, if passive < 0 then 0 else passive), Pulse(true, es[0].active)] + Flat(es[0].active, es[1..])
  }

  /** Every edge is a legal bit, and these are the bits. */
  ghost predicate Legal(es: seq<Edge>, bits: seq<bool>, first: bool) {
    && |es| == |bits|
    && (es != [] ==>
          && IsBitCell(es[0].active, es[0].gap, first)
          && (ReadsOne(es[0].active) <==> bits[0])
          && Legal(es[1..], bits[1..], false))
  }

  /** In the data field, with these bits in. */
  ghost predicate HasBits(d: Inside, bits: seq<bool>, prev: nat) {
    d == Inside(PackAll(bits), EMPTY, false, bits == [], prev, false, 0)
    && |bits| <= 8 * MAX_FRAME
    && (if bits == [] then IsSof(prev) else IsBitWidth(prev))
  }

  lemma {:induction false} TakesCell(d: Inside, bits: seq<bool>, prev: nat, e: Edge)
    requires HasBits(d, bits, prev) && |bits| < 8 * MAX_FRAME
    requires IsBitCell(e.active, e.gap, bits == [])
    ensures InsideValid(d) && d.prev == prev && e.gap > prev
    ensures var t := TakeGap(d, e.gap);
            t.Go? && TakeActive(t.d, e.active).Go?
            && HasBits(TakeActive(t.d, e.active).d, bits + [ReadsOne(e.active)], e.active)
  {
    hide Push, PackAll;
    PackNext(bits, ReadsOne(e.active));
  }

  lemma {:induction false} TakesCells(d: Inside, bits: seq<bool>, prev: nat, es: seq<Edge>, more: seq<bool>,
                                      tail: seq<Pulse>)
      returns (end: Inside, last: nat)
    requires HasBits(d, bits, prev) && |bits| + |more| <= 8 * MAX_FRAME
    requires Legal(es, more, bits == [])
    ensures HasBits(end, bits + more, last)
    ensures last == if es == [] then prev else es[|es| - 1].active
    ensures DecodeBody(d, Ok, Flat(prev, es) + tail) == DecodeBody(end, Ok, tail)
    decreases |es|
  {
    hide HasBits, TakeGap, TakeActive, IsBitCell, Verdict, Report;
    if es == [] {
      assert Flat(prev, es) + tail == tail && bits + more == bits;
      end, last := d, prev;
    } else {
      TakesCell(d, bits, prev, es[0]);
      var d' := TakeActive(TakeGap(d, es[0].gap).d, es[0].active).d;
      var ps := Flat(prev, es) + tail;
      assert ps[0] == Pulse(false, es[0].gap - prev) && ps[1] == Pulse(true, es[0].active);
      assert ps[2..] == Flat(es[0].active, es[1..]) + tail;
      assert bits + [more[0]] + more[1..] == bits + more;
      end, last := TakesCells(d', bits + [more[0]], es[0].active, es[1..], more[1..], tail);
    }
  }

  /** What may follow the last active phase: nothing, a closing passive phase,
      or one so long that the next edge belongs to another frame. */
  ghost predicate Closes(last: nat, tail: seq<Pulse>) {
    || tail == []
    || (!tail[0].active && (|tail| == 1 || last + tail[0].us >= 63))
  }

  lemma {:induction false} SkipsIdle(idle: seq<Pulse>, ps: seq<Pulse>)
    requires AllPassive(idle)
    ensures DecodeFrom(idle + ps) == DecodeFrom(ps)
  {
    if idle == [] {
      assert idle + ps == ps;
    } else {
      assert (idle + ps)[1..] == idle[1..] + ps;
      SkipsIdle(idle[1..], ps);
    }
  }

  lemma {:induction false} ClosedVerdict(d: Inside, data: seq<Octet>, last: nat, tail: seq<Pulse>)
    requires HasBits(d, AllBits(data), last) && Closes(last, tail)
    requires |data| >= 2 && CrcCheck(data)
    ensures var r := DecodeBody(d, Ok, tail); r.status == Ok && r.data == data && r.ifr == []
  {
    PackUnpacks(data);
  }

  /** Round trip under jitter: whatever the active phases and the distances of
      their rising edges, as long as each is in its own receive window, decoding
      gives back the CRC-terminated frame they spell. */
  lemma {:induction false} DecodesDistorted(data: seq<Octet>, idle: seq<Pulse>, sof: nat, es: seq<Edge>,
                                            tail: seq<Pulse>)
    requires 2 <= |data| <= MAX_FRAME && CrcCheck(data)
    requires AllPassive(idle) && IsSof(sof) && Legal(es, AllBits(data), true)
    requires Closes(es[|es| - 1].active, tail)
    ensures var r := DecodeFrom(idle + [Pulse(true, sof)] + Flat(sof, es) + tail);
            r.status == Ok && r.data == data && r.ifr == []
  {
    hide DecodeBody, Flat, Legal, CrcCheck, AllBits;
    var ps := [Pulse(true, sof)] + (Flat(sof, es) + tail);
    assert idle + [Pulse(true, sof)] + Flat(sof, es) + tail == idle + ps;
    SkipsIdle(idle, ps);
    assert ps[1..] == Flat(sof, es) + tail;
    DecodesEdges(data, AllBits(data), sof, es, tail);
  }

  lemma {:induction false} DecodesEdges(data: seq<Octet>, bits: seq<bool>, sof: nat, es: seq<Edge>, tail: seq<Pulse>)
    requires 2 <= |data| <= MAX_FRAME && CrcCheck(data) && bits == AllBits(data)
    requires IsSof(sof) && Legal(es, bits, true) && Closes(es[|es| - 1].active, tail)
    ensures var r := DecodeBody(START.(prev := sof), Ok, Flat(sof, es) + tail);
            r.status == Ok && r.data == data && r.ifr == []
  {
    hide DecodeBody, CrcCheck, AllBits, Flat;
    assert PackAll([]) == EMPTY;
    var end, last := TakesCells(START.(prev := sof), [], sof, es, bits, tail);
    assert [] + bits == bits;
    ClosedVerdict(end, data, last, tail);
  }

  /** The edges of encoded bits, the first one `cell` after the edge before. */
  ghost function EdgesOf(bits: seq<bool>, cell: nat): (es: seq<Edge>)
    ensures |es| == |bits|
    decreases |bits|
  {
    if bits == [] then []
    else [Edge(if bits[0] then TP1 else TP2, cell)] + EdgesOf(bits[1..], TP3)
  }

  lemma {:induction false} EdgesLegal(bits: seq<bool>, first: bool)
    ensures Legal(EdgesOf(bits, if first then TP4 else TP3), bits, first)
    decreases |bits|
  {
    if bits != [] {
      EdgesLegal(bits[1..], false);
      var es := EdgesOf(bits, if first then TP4 else TP3);
      assert es[1..] == EdgesOf(bits[1..], TP3);
    }
  }

  lemma {:induction false} CellsFlat(bits: seq<bool>, prev: nat, cell: nat) returns (last: Pulse)
    requires bits != [] && prev <= cell
    ensures [Pulse(false, cell - prev)] + FlatSym(BitCells(bits)) == Flat(prev, EdgesOf(bits, cell)) + [last]
    ensures !last.active && last.us > 0
    decreases |bits|
  {
    var es, cells := EdgesOf(bits, cell), BitCells(bits);
    var a := es[0].active;
    assert cells[0] == Cell(a, TP3) && cells[1..] == BitCells(bits[1..]);
    assert es[1..] == EdgesOf(bits[1..], TP3);
    var head := [Pulse(false, cell - prev), Pulse(true, a)];
    assert [Pulse(false, cell - prev)] + FlatSym(cells) == head + ([Pulse(false, TP3 - a)] + FlatSym(cells[1..]));
    if |bits| == 1 {
      last := Pulse(false, TP3 - a);
      assert FlatSym(cells[1..]) == [] && Flat(a, es[1..]) == [];
    } else {
      last := CellsFlat(bits[1..], a, TP3);
      assert head + (Flat(a, es[1..]) + [last]) == Flat(prev, es) + [last];
    }
  }

  /** The encoder's own output decodes to the frame. */
  lemma {:induction false} DecodesEncoded(data: seq<Octet>)
    requires 2 <= |data| <= MAX_FRAME && CrcCheck(data)
    ensures var r := DecodeFrom(Live(PulsesOf(Cells(data, true)))); r.status == Ok && r.data == data
  {
    var bits := AllBits(data);
    var last := CellsFlat(bits, TP7, TP4);
    EdgesLegal(bits, true);
    DecodesDistorted(data, [], TP7, EdgesOf(bits, TP4), [last]);
    EncodedPulses(Cells(data, true), bits, last);
  }

  lemma {:induction false} EncodedPulses(cells: seq<Symbol>, bits: seq<bool>, last: Pulse)
    requires cells == [Cell(TP7, TP4)] + BitCells(bits)
    requires [Pulse(false, TP4 - TP7)] + FlatSym(BitCells(bits)) == Flat(TP7, EdgesOf(bits, TP4)) + [last]
    ensures Live(PulsesOf(cells)) == [] + [Pulse(true, TP7)] + Flat(TP7, EdgesOf(bits, TP4)) + [last]
  {
    hide Flat, EdgesOf, Live, PulsesOf;
    FlatIsPulses(cells);
    assert cells[1..] == BitCells(bits);
    assert FlatSym(cells) == [Pulse(true, TP7)] + ([Pulse(false, TP4 - TP7)] + FlatSym(BitCells(bits)));
    assert [Pulse(true, TP7)] + (Flat(TP7, EdgesOf(bits, TP4)) + [last])
        == [] + [Pulse(true, TP7)] + Flat(TP7, EdgesOf(bits, TP4)) + [last];
    CellsLive(cells, bits);
    AllLive(PulsesOf(cells));
  }

  lemma {:induction false} CellsLive(cells: seq<Symbol>, bits: seq<bool>)
    requires cells == [Cell(TP7, TP4)] + BitCells(bits)
    ensures forall i :: 0 <= i < |PulsesOf(cells)| ==> PulsesOf(cells)[i].us > 0
  {
    hide BitCells;
    var ps := PulsesOf(cells);
    forall i | 0 <= i < |ps| ensures ps[i].us > 0 {
      assert cells[i / 2].first.us > 0 && cells[i / 2].second.us > 0;
    }
  }

  // ---- Streaming against batch ----

  /** Everything since the last SOF. */
  lemma {:induction false} SinceSof(h: seq<Edge>) returns (k: nat)
    requires Spell(h).Spelled?
    ensures k < |h| && IsSof(h[k].active)
    ensures Legal(h[k + 1..], Spell(h).whole + Spell(h).part, true)
  {
    var init, e := h[..|h| - 1], h[|h| - 1];
    if IsSof(e.active) {
      k := |h| - 1;
      assert h[k + 1..] == [];
    } else {
      hide Legal;
      k := SinceSof(init);
      var r := Spell(init);
      var one := ReadsOne(e.active);
      LegalAppend(init[k + 1..], r.whole + r.part, true, e, one);
      assert init[k + 1..] + [e] == h[k + 1..];
      assert r.whole + r.part + [one] == Spell(h).whole + Spell(h).part;
    }
  }

  lemma {:induction false} LegalAppend(es: seq<Edge>, bits: seq<bool>, first: bool, e: Edge, one: bool)
    requires Legal(es, bits, first) && IsBitCell(e.active, e.gap, first && bits == [])
    requires ReadsOne(e.active) <==> one
    ensures Legal(es + [e], bits + [one], first)
    decreases |es|
  {
    if es == [] {
      assert es + [e] == [e] && bits + [one] == [one];
      assert [e][1..] == [] && [one][1..] == [];
    } else {
      LegalAppend(es[1..], bits[1..], false, e, one);
      assert (es + [e])[1..] == es[1..] + [e] && (bits + [one])[1..] == bits[1..] + [one];
    }
  }

  /** When the stream decoder says yes, the edges since the last SOF, captured
      and closed by an end of frame, batch-decode to OK with the same bytes. */
  lemma {:induction false} StreamHitDecodes(h: seq<Edge>, e: Edge, tail: seq<Pulse>) returns (k: nat)
    requires Feed(Run(h), e.active, e.gap).hit && Closes(e.active, tail)
    ensures k <= |h| && IsSof((h + [e])[k].active)
    ensures var es := (h + [e])[k + 1..];
            var r := DecodeFrom([Pulse(true, (h + [e])[k].active)] + Flat((h + [e])[k].active, es) + tail);
            r.status == Ok && r.data == Feed(Run(h), e.active, e.gap).s.data
  {
    StreamHitsExactly(h, e);
    var all := h + [e];
    k := SinceSof(all);
    var whole := Spell(all).whole;
    assert whole + [] == whole;
    SpelledDecodes(all[k].active, all[k + 1..], whole, BytesOf(whole), tail);
  }

  lemma {:induction false} SpelledDecodes(sof: nat, es: seq<Edge>, whole: seq<bool>, data: seq<Octet>, tail: seq<Pulse>)
    requires IsSof(sof) && |whole| % 8 == 0 && Legal(es, whole, true)
    requires data == BytesOf(whole) && 4 <= |data| < MAX_FRAME && CrcCheck(data)
    requires es != [] && Closes(es[|es| - 1].active, tail)
    ensures var r := DecodeFrom([Pulse(true, sof)] + Flat(sof, es) + tail); r.status == Ok && r.data == data
  {
    PackedWhole(whole);
    DecodesDistorted(data, [], sof, es, tail);
    assert [] + [Pulse(true, sof)] == [Pulse(true, sof)];
  }

  // ---- Every frame is found ----

  /** The last of some legal edges is a legal bit behind legal edges. */
  lemma {:induction false} LegalLast(es: seq<Edge>, bits: seq<bool>, first: bool)
    requires Legal(es, bits, first) && es != []
    ensures var n := |es| - 1;
            && Legal(es[..n], bits[..n], first)
            && IsBitCell(es[n].active, es[n].gap, first && n == 0) && (ReadsOne(es[n].active) <==> bits[n])
    decreases |es|
  {
    var n := |es| - 1;
    if n > 0 {
      LegalLast(es[1..], bits[1..], false);
      assert es[..n][1..] == es[1..][..n - 1] && bits[..n][1..] == bits[1..][..n - 1];
    }
  }

  /** Bits as whole bytes and the byte begun. */
  ghost predicate Divides(r: Spelled, bits: seq<bool>) {
    r.Spelled? && bits == r.whole + r.part && |r.whole| % 8 == 0 && |r.part| < 8
  }

  /** A SOF and legal edges behind it spell their bits, whatever came before. */
  lemma {:induction false} LegalSpells(before: seq<Edge>, sof: Edge, es: seq<Edge>, bits: seq<bool>)
    requires IsSof(sof.active) && Legal(es, bits, true) && |bits| <= 8 * MAX_FRAME
    ensures Divides(Spell(before + [sof] + es), bits)
    decreases |es|
  {
    hide Legal, IsBitCell, SpellOn, Divides, IsSof;
    var h := before + [sof] + es;
    LegalCount(es, bits);
    if es == [] {
      assert h == before + [sof];
      SofSpells(before, sof);
    } else {
      var n := |es| - 1;
      LegalLast(es, bits, true);
      LegalSpells(before, sof, es[..n], bits[..n]);
      assert h[..|h| - 1] == before + [sof] + es[..n] && h[|h| - 1] == es[n];
      SpellsOn(Spell(before + [sof] + es[..n]), es[n], bits[..n], bits[n]);
      assert bits[..n] + [bits[n]] == bits;
    }
  }

  lemma {:induction false} SofSpells(before: seq<Edge>, sof: Edge)
    requires IsSof(sof.active)
    ensures Divides(Spell(before + [sof]), [])
  {
    assert (before + [sof])[..|before|] == before;
  }

  lemma {:induction false} SpellsOn(r: Spelled, e: Edge, bits: seq<bool>, one: bool)
    requires Divides(r, bits) && |bits| < 8 * MAX_FRAME
    requires IsBitCell(e.active, e.gap, bits == []) && (ReadsOne(e.active) <==> one)
    ensures Divides(SpellOn(r, e), bits + [one])
  {
    assert bits == [] <==> r.whole == [] && r.part == [];
    assert r.whole + (r.part + [one]) == bits + [one];
  }

  /** Every CRC-terminated frame of 4 to 11 bytes is recognised at its last bit,
      with its own bytes, whatever the widths and distances inside their
      windows and whatever came before its SOF. */
  lemma {:induction false} StreamFindsFrames(before: seq<Edge>, sof: Edge, es: seq<Edge>, data: seq<Octet>)
    requires IsSof(sof.active) && 4 <= |data| < MAX_FRAME && CrcCheck(data)
    requires Legal(es, AllBits(data), true)
    ensures var n := |es| - 1;
            var f := Feed(Run(before + [sof] + es[..n]), es[n].active, es[n].gap);
            f.hit && f.s.data == data
  {
    hide Legal, CrcCheck, Feed, Run, AllBits, PackAll;
    var n := |es| - 1;
    LegalCount(es, AllBits(data));
    LegalSpells(before, sof, es, AllBits(data));
    StreamHitsExactly(before + [sof] + es[..n], es[n]);
    assert before + [sof] + es[..n] + [es[n]] == before + [sof] + es;
    var r := Spell(before + [sof] + es);
    assert |r.part| == 0;
    assert r.whole == AllBits(data);
    PackUnpacks(data);
  }

  lemma {:induction false} LegalCount(es: seq<Edge>, bits: seq<bool>)
    requires Legal(es, bits, true)
    ensures |es| == |bits|
  {
  }

  /** There are such frames: the requirements of the lemmas above can be met. */
  lemma {:induction false} SomeFrameIsFound() returns (h: seq<Edge>, e: Edge)
    ensures Feed(Run(h), e.active, e.gap).hit
  {
    var d: seq<Octet> := [0, 0, 0];
    var data := d + [Crc(d)];
    assert data[..3] == d;
    var es := EdgesOf(AllBits(data), TP4);
    EdgesLegal(AllBits(data), true);
    StreamFindsFrames([], Edge(TP7, 0), es, data);
    h, e := [] + [Edge(TP7, 0)] + es[..|es| - 1], es[|es| - 1];
  }
}
