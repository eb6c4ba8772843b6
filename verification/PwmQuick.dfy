/** The quick decoder, which reads bytes out of a capture without checking it,
    and its agreement with the batch decoder on every capture that one accepts. */
module PwmQuick {
  import opened J1850Crc
  import opened J1850Bits
  import opened J1850Capture
  import opened PwmCodec
  import Agree = PwmAgreement
  import opened PwmStream

  /** The bytes read so far, and the byte begun. */
  function QuickBody(data: seq<Octet>, acc: Octet, nbits: nat, sym: seq<Symbol>, cap: nat): (r: seq<Octet>)
    requires nbits < 8
    decreases |sym|
  {
    if sym == [] || sym[0].first.us == 0 then (if nbits == 0 then data else [])
    else
      var acc' := ShiftIn(acc, sym[0].first.us < BIT_SPLIT);
      var whole := nbits + 1 == 8;
      if whole && |data| >= cap then []
      else
        var data', acc'', nbits' := if whole then data + [acc'] else data,
                                    if whole then 0 else acc',
                                    if whole then 0 else nbits + 1;
        if sym[0].first.us + sym[0].second.us >= TP4_MIN then (if nbits' == 0 then data' else [])
        else QuickBody(data', acc'', nbits', sym[1..], cap)
  }

  function QuickFrom(sym: seq<Symbol>, cap: nat): (r: seq<Octet>)
    decreases |sym|
  {
    if sym == [] then []
    else if !sym[0].first.active && sym[0].first.us != 0 then QuickFrom(sym[1..], cap)
    else if !Classify(sym[0].first.us).Sof? then []
    else QuickBody([], 0, 0, sym[1..], cap)
  }

  /** `j1850_pwm_quick_decode`; an empty result stands for a length of 0. */
  method QuickDecode(sym: seq<Symbol>, cap: nat) returns (out: seq<Octet>)
    ensures out == if cap == 0 then [] else QuickFrom(sym, cap)
  {
    if cap == 0 {
      return [];
    }
    var i := 0;
    while i < |sym| && !sym[i].first.active && sym[i].first.us != 0
      invariant 0 <= i <= |sym|
      invariant QuickFrom(sym, cap) == QuickFrom(sym[i..], cap)
    {
      assert sym[i..][1..] == sym[i + 1..];
      i := i + 1;
    }
    if i >= |sym| || !Classify(sym[i].first.us).Sof? {
      return [];
    }
    assert sym[i..][1..] == sym[i + 1..];
    i := i + 1;
    var data: seq<Octet>, acc: Octet, nbits := [], 0, 0;
    while i < |sym|
      invariant 0 <= i <= |sym| && nbits < 8
      invariant QuickFrom(sym, cap) == QuickBody(data, acc, nbits, sym[i..], cap)
    {
      var active := sym[i].first.us;
      if active == 0 {
        break;
      }
      acc := (acc << 1) | (if active < BIT_SPLIT then 1 else 0);
      nbits := nbits + 1;
      if nbits == 8 {
        if |data| >= cap {
          return [];
        }
        data, nbits, acc := data + [acc], 0, 0;
      }
      assert sym[i..][1..] == sym[i + 1..];
      if active + sym[i].second.us >= TP4_MIN {
        return if nbits == 0 then data else [];
      }
      i := i + 1;
    }
    return if nbits == 0 then data else [];
  }

  // ---- Agreement ----

  /** A zero duration only marks the end: nothing but zeros follows it. */
  ghost predicate EndMarked(ps: seq<Pulse>) {
    forall i, j :: 0 <= i < j < |ps| && ps[i].us == 0 ==> ps[j].us == 0
  }

  /** Past the data field nothing is added to it. */
  lemma {:induction false} IfrKeepsData(d: Inside, ps: seq<Pulse>)
    requires InsideValid(d) && d.inIfr
    ensures DecodeBody(d, Ok, ps).data == d.data.bytes
    decreases |ps|
  {
    if |ps| >= 2 && !ps[0].active && TakeGap(d, d.prev + ps[0].us).Go? {
      var d' := TakeGap(d, d.prev + ps[0].us).d;
      if TakeActive(d', ps[1].us).Go? {
        IfrKeepsData(TakeActive(d', ps[1].us).d, ps[2..]);
      }
    }
  }

  /** If the batch decoder accepts from here and no further data bit follows,
      the data is what it has, and whole bytes. */
  lemma {:induction false} DataEnds(d: Inside, bits: seq<bool>, prev: nat, ps: seq<Pulse>)
    requires Agree.HasBits(d, bits, prev)
    requires DecodeBody(d, Ok, ps).status == Ok
    requires |ps| < 2 || (bits != [] && prev + ps[0].us >= TP4_MIN)
    ensures DecodeBody(d, Ok, ps).data == PackAll(bits).bytes && PackAll(bits).count == 0
  {
    hide Push, PackAll, CrcCheck, Classify, IsSof;
    if |ps| >= 2 {
      var t := TakeGap(d, prev + ps[0].us);
      if t.Go? && TakeActive(t.d, ps[1].us).Go? {
        IfrKeepsData(TakeActive(t.d, ps[1].us).d, ps[2..]);
      }
    }
  }

  /** If the batch decoder accepts and a further edge follows closely, that edge
      is a legal data bit. */
  lemma {:induction false} BitFollows(d: Inside, bits: seq<bool>, prev: nat, ps: seq<Pulse>)
    requires Agree.HasBits(d, bits, prev)
    requires DecodeBody(d, Ok, ps).status == Ok
    requires |ps| >= 2 && (bits != [] ==> prev + ps[0].us < TP4_MIN)
    ensures !ps[0].active && IsBitCell(ps[1].us, prev + ps[0].us, bits == []) && |bits| < 8 * MAX_FRAME
  {
    if bits == [] {
      assert PackAll(bits) == EMPTY;
    }
  }

  lemma {:induction false} LivePair(p: Pulse, q: Pulse, rest: seq<Pulse>)
    requires p.us > 0 && q.us > 0
    ensures Live([p, q] + rest) == [p, q] + Live(rest)
  {
    assert ([p, q] + rest)[1..] == [q] + rest;
    assert ([q] + rest)[1..] == rest;
  }

  lemma {:induction false} LiveEnds(p: Pulse, rest: seq<Pulse>)
    requires rest == [] || rest[0].us == 0
    ensures |Live([p] + rest)| <= 1
    ensures Live([p] + rest) == [] || Live([p] + rest) == [p]
  {
    assert ([p] + rest)[1..] == rest;
  }

  /** What the two decoders hold agrees: whole bytes and a byte begun. */
  ghost predicate SameSoFar(bits: seq<bool>, whole: seq<bool>, part: seq<bool>, data: seq<Octet>, acc: Octet) {
    bits == whole + part && |whole| % 8 == 0 && |part| < 8 && data == BytesOf(whole) && acc == ShiftAll(part)
  }

  lemma {:induction false} WholeOnly(bits: seq<bool>, whole: seq<bool>, part: seq<bool>)
    requires bits == whole + part && |whole| % 8 == 0 && |part| < 8
    ensures PackAll(bits).count == |part| && PackAll(bits).bytes == BytesOf(whole)
  {
    assert bits[..|whole|] == whole;
    PartByte(bits, |whole|);
  }

  /** From a common state on, if the batch decoder accepts, the quick one
      returns the same data. */
  lemma {:induction false} QuickAgrees(d: Inside, bits: seq<bool>, prev: nat, whole: seq<bool>, part: seq<bool>,
                                       data: seq<Octet>, acc: Octet, second: Pulse, sym: seq<Symbol>, cap: nat)
    requires Agree.HasBits(d, bits, prev) && SameSoFar(bits, whole, part, data, acc) && cap >= MAX_FRAME
    requires EndMarked([second] + FlatSym(sym)) && (bits != [] ==> prev + second.us < TP4_MIN)
    requires DecodeBody(d, Ok, Live([second] + FlatSym(sym))).status == Ok
    ensures QuickBody(data, acc, |part|, sym, cap) == DecodeBody(d, Ok, Live([second] + FlatSym(sym))).data
    decreases |sym|
  {
    var ps := [second] + FlatSym(sym);
    WholeOnly(bits, whole, part);
    if sym == [] || sym[0].first.us == 0 {
      LiveEnds(second, FlatSym(sym));
      DataEnds(d, bits, prev, Live(ps));
    } else {
      var first, next, rest := sym[0].first, sym[0].second, FlatSym(sym[1..]);
      assert ps == [second, first] + ([next] + rest);
      assert second.us > 0 by {
        assert ps[0] == second && ps[1] == first;
      }
      LivePair(second, first, [next] + rest);
      MarkedTail(second, first, [next] + rest);
      QuickAgreesBit(d, bits, prev, whole, part, data, acc, second, sym, cap);
    }
  }

  lemma {:induction false} MarkedTail(p: Pulse, q: Pulse, rest: seq<Pulse>)
    requires EndMarked([p, q] + rest)
    ensures EndMarked(rest)
  {
    var ps := [p, q] + rest;
    forall i, j | 0 <= i < j < |rest| && rest[i].us == 0 ensures rest[j].us == 0 {
      assert ps[i + 2] == rest[i] && ps[j + 2] == rest[j];
    }
  }

  lemma {:induction false} QuickAgreesBit(d: Inside, bits: seq<bool>, prev: nat, whole: seq<bool>, part: seq<bool>,
                                          data: seq<Octet>, acc: Octet, second: Pulse, sym: seq<Symbol>, cap: nat)
    requires Agree.HasBits(d, bits, prev) && SameSoFar(bits, whole, part, data, acc) && cap >= MAX_FRAME
    requires sym != [] && sym[0].first.us > 0 && second.us > 0
    requires EndMarked([sym[0].second] + FlatSym(sym[1..])) && (bits != [] ==> prev + second.us < TP4_MIN)
    requires Live([second] + FlatSym(sym))
          == [second, sym[0].first] + Live([sym[0].second] + FlatSym(sym[1..]))
    requires DecodeBody(d, Ok, Live([second] + FlatSym(sym))).status == Ok
    ensures QuickBody(data, acc, |part|, sym, cap) == DecodeBody(d, Ok, Live([second] + FlatSym(sym))).data
    decreases |sym|, 0
  {
    hide Agree.HasBits, TakeGap, TakeActive, Live, FlatSym, IsBitCell, ShiftIn, PackAll, EndMarked, Verdict, Report;
    var ps := Live([second] + FlatSym(sym));
    var us, next := sym[0].first.us, sym[0].second;
    var left := Live([next] + FlatSym(sym[1..]));
    BitFollows(d, bits, prev, ps);
    var e := Edge(us, prev + second.us);
    var one := ReadsOne(us);
    Agree.TakesCell(d, bits, prev, e);
    var d' := TakeActive(TakeGap(d, e.gap).d, us).d;
    assert ps[0] == second && ps[1] == sym[0].first && ps[2..] == left;
    assert DecodeBody(d, Ok, ps) == DecodeBody(d', Ok, left);
    var whole', part', data', acc' := Grown(whole, part, data, acc, one);
    assert bits + [one] == whole' + part';
    WholeOnly(bits + [one], whole', part');
    if us + next.us >= TP4_MIN {
      assert |left| >= 2 ==> left[0] == next;
      DataEnds(d', bits + [one], us, left);
    } else {
      QuickAgrees(d', bits + [one], us, whole', part', data', acc', next, sym[1..], cap);
    }
  }

  /** Both decoders after one more bit. */
  lemma {:induction false} Grown(whole: seq<bool>, part: seq<bool>, data: seq<Octet>, acc: Octet, one: bool)
      returns (whole': seq<bool>, part': seq<bool>, data': seq<Octet>, acc': Octet)
    requires SameSoFar(whole + part, whole, part, data, acc)
    ensures SameSoFar(whole + part + [one], whole', part', data', acc')
    ensures |part'| == if |part| == 7 then 0 else |part| + 1
    ensures data' == if |part| == 7 then data + [ShiftIn(acc, one)] else data
    ensures acc' == if |part| == 7 then 0 else ShiftIn(acc, one)
  {
    ShiftNext(part, one);
    if |part| == 7 {
      WholeByte(whole, part + [one]);
      whole', part', data', acc' := whole + (part + [one]), [], data + [ShiftIn(acc, one)], 0;
      EmptyByte();
      assert whole + part + [one] == whole' + part';
    } else {
      whole', part', data', acc' := whole, part + [one], data, ShiftIn(acc, one);
      assert whole + part + [one] == whole' + part';
    }
  }

  /** On every capture that opens with an active phase and has zero durations
      only at its end: whatever the batch decoder accepts, with or without an
      in-frame response, the quick one reads as the same bytes. */
  lemma {:induction false} BatchOkIsQuick(sym: seq<Symbol>, cap: nat)
    requires sym != [] && sym[0].first.active && EndMarked(PulsesOf(sym)) && cap >= MAX_FRAME
    requires DecodeFrom(Live(PulsesOf(sym))).status == Ok
    ensures QuickFrom(sym, cap) == DecodeFrom(Live(PulsesOf(sym))).data
  {
    FlatIsPulses(sym);
    var first, second := sym[0].first, sym[0].second;
    var rest := [second] + FlatSym(sym[1..]);
    assert FlatSym(sym) == [first] + rest;
    assert ([first] + rest)[1..] == rest;
    assert Live(FlatSym(sym)) == [first] + Live(rest);
    assert ([first] + Live(rest))[1..] == Live(rest);
    OpensWithSof(Live(FlatSym(sym)));
    assert EndMarked(rest) by {
      forall i, j | 0 <= i < j < |rest| && rest[i].us == 0 ensures rest[j].us == 0 {
        assert FlatSym(sym)[i + 1] == rest[i] && FlatSym(sym)[j + 1] == rest[j];
      }
    }
    assert PackAll([]) == EMPTY;
    EmptyByte();
    QuickAgrees(START.(prev := first.us), [], first.us, [], [], [], 0, second, sym[1..], cap);
  }

  lemma {:induction false} OpensWithSof(ps: seq<Pulse>)
    requires ps != [] && ps[0].active && DecodeFrom(ps).status == Ok
    ensures Classify(ps[0].us).Sof?
    ensures DecodeFrom(ps) == DecodeBody(START.(prev := ps[0].us), Ok, ps[1..])
  {
    var s := Classify(ps[0].us);
    if s.One? || s.Zero? {
      NeverOk(START.(prev := ps[0].us, inIfr := true, afterSof := false, ifr := Push(EMPTY, s.One?)), ps[1..]);
    }
  }

  lemma {:induction false} NeverOk(d: Inside, ps: seq<Pulse>)
    requires InsideValid(d)
    ensures DecodeBody(d, IfrOnly, ps).status != Ok
    decreases |ps|
  {
    if |ps| >= 2 && !ps[0].active && TakeGap(d, d.prev + ps[0].us).Go? {
      var d' := TakeGap(d, d.prev + ps[0].us).d;
      if TakeActive(d', ps[1].us).Go? {
        NeverOk(TakeActive(d', ps[1].us).d, ps[2..]);
      }
    }
  }

  // ---- What it reads ----

  /** The active widths of a capture up to its end marker, or up to and with the
      first cell that lasts as long as an end of data. */
  ghost function Cells(sym: seq<Symbol>): (ws: seq<nat>)
    decreases |sym|
  {
    if sym == [] || sym[0].first.us == 0 then []
    else [sym[0].first.us] + if sym[0].first.us + sym[0].second.us >= 42 then [] else Cells(sym[1..])
  }

  /** The bits of the cells, if they are whole bytes and no more than there is
      room for. */
  ghost function WholeOf(bits: seq<bool>, cap: nat): (d: seq<Octet>) {
    if |bits| % 8 != 0 || |bits| > 8 * cap then [] else BytesOf(bits)
  }

  lemma {:induction false} CellsNext(sym: seq<Symbol>)
    requires sym != [] && sym[0].first.us != 0
    ensures var rest := if sym[0].first.us + sym[0].second.us >= 42 then [] else Cells(sym[1..]);
            BitsIn(Cells(sym)) == [ReadsOne(sym[0].first.us)] + BitsIn(rest)
  {
  }

  lemma {:induction false} QuickBodyReads(whole: seq<bool>, part: seq<bool>, data: seq<Octet>, acc: Octet,
                                          sym: seq<Symbol>, cap: nat)
    requires SameSoFar(whole + part, whole, part, data, acc) && |whole| <= 8 * cap
    ensures QuickBody(data, acc, |part|, sym, cap) == WholeOf(whole + part + BitsIn(Cells(sym)), cap)
    decreases |sym|
  {
    hide PackAll, ShiftIn, Cells, BytesOf, ShiftAll;
    WholeBits(whole);
    if sym == [] || sym[0].first.us == 0 {
      assert BitsIn(Cells(sym)) == [] by { NoCells(sym); }
      assert whole + part + [] == whole + part;
    } else {
      var one := ReadsOne(sym[0].first.us);
      var rest := if sym[0].first.us + sym[0].second.us >= 42 then [] else Cells(sym[1..]);
      CellsNext(sym);
      var whole', part', data', acc' := Grown(whole, part, data, acc, one);
      WholeBits(whole');
      Regroup(whole, part, one, BitsIn(rest), whole' + part');
      if sym[0].first.us + sym[0].second.us >= 42 {
        assert whole' + part' + [] == whole' + part';
        assert |part'| == 0 ==> whole' + part' == whole';
      } else if !(|part| == 7 && |data| >= cap) {
        QuickBodyReads(whole', part', data', acc', sym[1..], cap);
      }
    }
  }

  lemma {:induction false} NoCells(sym: seq<Symbol>)
    requires sym == [] || sym[0].first.us == 0
    ensures BitsIn(Cells(sym)) == []
  {
  }

  lemma {:induction false} Regroup(whole: seq<bool>, part: seq<bool>, one: bool, rest: seq<bool>, both: seq<bool>)
    requires whole + part + [one] == both
    ensures whole + part + ([one] + rest) == both + rest
  {
    assert whole + part + ([one] + rest) == whole + part + [one] + rest;
  }

  lemma {:induction false} WholeBits(whole: seq<bool>)
    requires |whole| % 8 == 0
    ensures 8 * |BytesOf(whole)| == |whole| && whole + [] == whole
  {
  }

  /** On every capture: behind any leading idle, a symbol that opens with a SOF,
      and then the bits of the cells by their widths alone; and nothing without
      the SOF, or if they are no whole bytes or too many. */
  lemma {:induction false} QuickReads(sym: seq<Symbol>, cap: nat)
    ensures QuickFrom(sym, cap) ==
      if sym == [] then []
      else if !sym[0].first.active && sym[0].first.us != 0 then QuickFrom(sym[1..], cap)
      else if !IsSof(sym[0].first.us) then []
      else WholeOf(BitsIn(Cells(sym[1..])), cap)
  {
    hide QuickBody, Cells, BitsIn, PackAll;
    EmptyByte();
    if sym != [] && IsSof(sym[0].first.us) {
      EmptyPacker();
      QuickBodyReads([], [], [], 0, sym[1..], cap);
      assert [] + [] + BitsIn(Cells(sym[1..])) == BitsIn(Cells(sym[1..]));
    }
  }

  lemma {:induction false} EmptyPacker()
    ensures PackAll([]) == EMPTY
  {
  }
}
