/** SAE J1850 PWM: a fixed bit cell, its value given by the width of the active
    phase. Encoder and batch decoder. */
module PwmCodec {
  import opened J1850Crc
  import opened J1850Bits
  import opened J1850Capture

  // ---- Table 3, microseconds ----

  const TP1 := 7
  const TP2 := 15
  const TP3 := 24
  const TP4 := 48
  const TP7 := 31
  const BIT_MIN := 4
  const BIT_MAX := 18
  const BIT_SPLIT := 11
  const TP3_MIN := 21
  const TP3_MAX := 27
  const TP4_MIN := 42
  const TP4_MAX := 54
  const TP5_MIN := 63
  const SOF_MIN := 27
  const SOF_MAX := 34
  const BRK_MIN := 35
  const BRK_MAX := 43

  // ---- Encoding ----

  function Cell(active: nat, cell: nat): (s: Symbol)
    requires active <= cell
  {
    Symbol(Pulse(true, active), Pulse(false, cell - active))
  }

  /** The cells of a frame: an optional SOF, 31 us of 48 active, and one cell a
      bit, 24 us long, 7 us of them active for a 1 and 15 for a 0. */
  ghost function Cells(data: seq<Octet>, withSof: bool): (s: seq<Symbol>) {
    (if withSof then [Cell(31, 48)] else []) + BitCells(AllBits(data))
  }

  ghost function BitCells(bits: seq<bool>): (s: seq<Symbol>)
    ensures |s| == |bits|
    ensures forall i :: 0 <= i < |s| ==> s[i] == Cell(if bits[i] then 7 else 15, 24)
  {
    seq(|bits|, i requires 0 <= i < |bits| => Cell(if bits[i] then 7 else 15, 24))
  }

  /** One byte, most significant bit first. */
  method PutByte(b: Octet, out: array<Symbol>, start: nat)
    requires start + 8 <= out.Length
    modifies out
    ensures out[..] == old(out[..])[..start] + BitCells(TopBits(b, 8)) + old(out[..])[start + 8..]
  {
    hide TopBits, Bit, BitCells;
    ghost var cells := BitCells(TopBits(b, 8));
    var bit := 0;
    while bit < 8
      invariant 0 <= bit <= 8
      invariant forall k :: 0 <= k < bit ==> out[start + k] == cells[k]
      invariant forall k :: 0 <= k < out.Length && !(start <= k < start + bit) ==> out[k] == old(out[k])
    {
      out[start + bit] := Cell(if Bit(b, bit) then TP1 else TP2, TP3);
      bit := bit + 1;
    }
    ThreeParts(out[..], old(out[..]), start, cells);
  }

  lemma {:induction false} ThreeParts(now: seq<Symbol>, was: seq<Symbol>, start: nat, cells: seq<Symbol>)
    requires start + |cells| <= |was| == |now|
    requires forall k :: 0 <= k < |cells| ==> now[start + k] == cells[k]
    requires forall k :: 0 <= k < |was| && !(start <= k < start + |cells|) ==> now[k] == was[k]
    ensures now == was[..start] + cells + was[start + |cells|..]
  {
    var r := was[..start] + cells + was[start + |cells|..];
    forall k | 0 <= k < |now| ensures now[k] == r[k] {
      if start <= k < start + |cells| {
        assert now[start + (k - start)] == cells[k - start];
      }
    }
  }

  lemma {:induction false} BitCellsJoin(x: seq<bool>, y: seq<bool>)
    ensures BitCells(x + y) == BitCells(x) + BitCells(y)
  {
  }

  /** `j1850_pwm_encode`. */
  method Encode(data: seq<Octet>, withSof: bool, out: array<Symbol>) returns (n: nat)
    modifies out
    ensures var need := 8 * |data| + if withSof then 1 else 0;
            n == if 0 < |data| <= MAX_FRAME && out.Length >= need then need else 0
    ensures n > 0 ==> out[..] == Cells(data, withSof) + old(out[..])[n..]
    ensures n == 0 ==> out[..] == old(out[..])
  {
    hide BitCells, AllBits, Partly, TopBits;
    var first := if withSof then 1 else 0;
    if |data| == 0 || |data| > MAX_FRAME || out.Length < 8 * |data| + first {
      return 0;
    }
    ghost var was := out[..];
    ghost var sof := if withSof then [Cell(TP7, TP4)] else [];
    if withSof {
      out[0] := Cell(TP7, TP4);
    }
    assert out[..] == sof + was[first..];
    PartlyNone(sof, data, was);
    PartlyAll(sof, data, was);
    PutBytes(data, out, first, sof, was);
    return first + 8 * |data|;
  }

  method PutBytes(data: seq<Octet>, out: array<Symbol>, first: nat, ghost sof: seq<Symbol>, ghost was: seq<Symbol>)
    requires first == |sof| && first + 8 * |data| <= |was| && out[..] == Partly(sof, data, 0, was)
    modifies out
    ensures out[..] == Partly(sof, data, |data|, was)
  {
    hide BitCells, AllBits, Partly, TopBits;
    var n := first;
    ghost var start := out[..];
    assert |start| == |was| by { PartlyNone(sof, data, was); }
    for i := 0 to |data|
      invariant n == first + 8 * i && out.Length == |was|
      invariant out[..] == Partly(sof, data, i, was)
    {
      PutByte(data[i], out, n);
      NextByte(sof, data, i, was);
      n := n + 8;
    }
  }

  lemma {:induction false} PartlyNone(sof: seq<Symbol>, data: seq<Octet>, was: seq<Symbol>)
    requires |sof| + 8 * |data| <= |was|
    ensures Partly(sof, data, 0, was) == sof + was[|sof|..]
  {
    hide AllBits, BitCells;
    var none := BitCells(AllBits(data[..0]));
    assert none == [];
    assert sof + none == sof;
  }

  lemma {:induction false} PartlyAll(sof: seq<Symbol>, data: seq<Octet>, was: seq<Symbol>)
    requires |sof| + 8 * |data| <= |was|
    ensures Partly(sof, data, |data|, was) == sof + BitCells(AllBits(data)) + was[|sof| + 8 * |data|..]
  {
    hide AllBits, BitCells;
    assert data[..|data|] == data;
  }

  /** The output once `i` bytes are in it. */
  ghost function Partly(sof: seq<Symbol>, data: seq<Octet>, i: nat, was: seq<Symbol>): (s: seq<Symbol>)
    requires i <= |data| && |sof| + 8 * |data| <= |was|
  {
    sof + BitCells(AllBits(data[..i])) + was[|sof| + 8 * i..]
  }

  lemma {:induction false} NextByte(sof: seq<Symbol>, data: seq<Octet>, i: nat, was: seq<Symbol>)
    requires i < |data| && |sof| + 8 * |data| <= |was|
    ensures var s := Partly(sof, data, i, was);
            var n := |sof| + 8 * i;
            |s| == |was|
            && s[..n] + BitCells(TopBits(data[i], 8)) + s[n + 8..] == Partly(sof, data, i + 1, was)
  {
    hide BitCells, AllBits, TopBits;
    var n := |sof| + 8 * i;
    var done, byte := BitCells(AllBits(data[..i])), BitCells(TopBits(data[i], 8));
    var s := sof + done + was[n..];
    assert data[..i] + [data[i]] == data[..i + 1];
    AllBitsAppend(data[..i], data[i]);
    BitCellsJoin(AllBits(data[..i]), TopBits(data[i], 8));
    Spliced(sof + done, byte, was, n);
    assert sof + done + byte == sof + (done + byte);
  }

  lemma {:induction false} Spliced(head: seq<Symbol>, byte: seq<Symbol>, was: seq<Symbol>, n: nat)
    requires |head| == n && |byte| == 8 && n + 8 <= |was|
    ensures var s := head + was[n..];
            s[..n] + byte + s[n + 8..] == head + byte + was[n + 8..]
  {
    var s := head + was[n..];
    assert s[..n] == head;
    assert s[n + 8..] == was[n + 8..];
  }

  // ---- Classification ----

  datatype Sym = One | Zero | Sof | Brk | Bad

  function Classify(us: nat): (s: Sym) {
    if BIT_MIN <= us <= BIT_MAX then (if us < BIT_SPLIT then One else Zero)
    else if SOF_MIN <= us <= SOF_MAX then Sof
    else if BRK_MIN <= us <= BRK_MAX then Brk
    else Bad
  }

  // ---- Batch decoding ----

  datatype Status = Ok | IfrOnly | Break | Empty | NoSof | BadSymbol | BadTiming | Framing | TooLong | TooShort | BadCrc

  datatype Decoded = Decoded(status: Status, data: seq<Octet>, ifr: seq<Octet>, eod: bool, eodGap: nat, lastActive: nat)

  const NOTHING := Decoded(Empty, [], [], false, 0, 0)

  /** Inside a frame, behind an active phase of width `prev`. */
  datatype Inside = Inside(data: Packer, ifr: Packer, inIfr: bool, afterSof: bool, prev: nat, eod: bool, eodGap: nat)

  predicate InsideValid(d: Inside) { d.data.count < 8 && d.ifr.count < 8 }

  function Field(d: Inside): (p: Packer) { if d.inIfr then d.ifr else d.data }

  function PushField(d: Inside, one: bool): (r: Inside)
    requires Field(d).count < 8
  {
    if d.inIfr then d.(ifr := Push(d.ifr, one)) else d.(data := Push(d.data, one))
  }

  function Report(d: Inside, status: Status): (r: Decoded) {
    Decoded(status, d.data.bytes, d.ifr.bytes, d.eod, d.eodGap, d.prev)
  }

  datatype Turn = Go(d: Inside) | Done(d: Inside) | Stop(d: Inside, status: Status)

  /** What the rising edge `gap` after the last one says: an ordinary bit, the
      end of data, the end of the frame, or nothing legal. */
  function TakeGap(d: Inside, gap: nat): (t: Turn)
    requires InsideValid(d)
    ensures InsideValid(t.d)
  {
    if gap >= TP5_MIN then Done(d)
    else if d.afterSof then
      if TP4_MIN <= gap <= TP4_MAX then Go(d.(afterSof := false)) else Stop(d, BadTiming)
    else if gap >= TP4_MIN then
      if d.inIfr then Done(d)
      else if d.data.count != 0 then Stop(d, Framing)
      else Go(d.(inIfr := true, eod := true, eodGap := gap))
    else if TP3_MIN <= gap <= TP3_MAX then Go(d)
    else Stop(d, BadTiming)
  }

  function TakeActive(d: Inside, us: nat): (t: Turn)
    requires InsideValid(d)
    ensures InsideValid(t.d)
  {
    var s := Classify(us);
    if !s.One? && !s.Zero? then Stop(d, if s.Bad? then BadSymbol else BadTiming)
    else if Full(Field(d)) then Stop(d, TooLong)
    else Go(PushField(d, s.One?).(prev := us))
  }

  function Verdict(d: Inside, opening: Status): (r: Decoded) {
    if Field(d).count != 0 then Report(d, Framing)
    else if opening == IfrOnly then Report(d, if d.ifr.bytes == [] then Empty else IfrOnly)
    else if |d.data.bytes| < 2 then Report(d, TooShort)
    else if !CrcCheck(d.data.bytes) then Report(d, BadCrc)
    else Report(d, opening)
  }

  /** Each turn takes the passive phase and the next active one. */
  function DecodeBody(d: Inside, opening: Status, ps: seq<Pulse>): (r: Decoded)
    requires InsideValid(d)
    decreases |ps|
  {
    if ps == [] then Verdict(d, opening)
    else if ps[0].active then Report(d, BadSymbol)
    else if |ps| == 1 then Verdict(d, opening)
    else
      match TakeGap(d, d.prev + ps[0].us)
      case Done(d') => Verdict(d', opening)
      case Stop(d', status) => Report(d', status)
      case Go(d') =>
        match TakeActive(d', ps[1].us)
        case Done(d'') => Verdict(d'', opening)
        case Stop(d'', status) => Report(d'', status)
        case Go(d'') => DecodeBody(d'', opening, ps[2..])
  }

  const START := Inside(EMPTY, EMPTY, false, true, 0, false, 0)

  function DecodeFrom(ps: seq<Pulse>): (r: Decoded)
    decreases |ps|
  {
    if ps == [] then NOTHING
    else if !ps[0].active then DecodeFrom(ps[1..])
    else
      match Classify(ps[0].us)
      case Sof => DecodeBody(START.(prev := ps[0].us), Ok, ps[1..])
      case Brk => NOTHING.(status := Break)
      case Bad => NOTHING.(status := NoSof)
      case s =>
        DecodeBody(START.(prev := ps[0].us, inIfr := true, afterSof := false, ifr := Push(EMPTY, s.One?)),
                   IfrOnly, ps[1..])
  }

  /** `j1850_pwm_decode`. */
  method Decode(sym: seq<Symbol>) returns (r: Decoded)
    ensures r == DecodeFrom(Live(PulsesOf(sym)))
  {
    hide DecodeBody, PulsesOf, Live, Push;
    ghost var all := Live(PulsesOf(sym));
    r := NOTHING;
    var idx := 0;
    var more, p := NextPulse(sym, idx);
    while more && !p.active
      invariant 0 <= idx <= |all|
      invariant more <==> idx < |all|
      invariant more ==> p == all[idx]
      invariant DecodeFrom(all) == DecodeFrom(all[idx..])
      decreases |all| - idx
    {
      assert all[idx..][1..] == all[idx + 1..];
      idx := idx + 1;
      more, p := NextPulse(sym, idx);
    }
    if !more {
      return;
    }
    var s := Classify(p.us);
    if s.Brk? {
      return NOTHING.(status := Break);
    }
    if s.Bad? {
      return NOTHING.(status := NoSof);
    }
    var d := START.(prev := p.us);
    var opening := Ok;
    if !s.Sof? {
      opening := IfrOnly;
      d := d.(inIfr := true, afterSof := false, ifr := Push(EMPTY, s.One?));
    }
    assert all[idx..][1..] == all[idx + 1..];
    r := RunBody(sym, idx + 1, d, opening);
  }

  method RunBody(sym: seq<Symbol>, start: nat, d0: Inside, opening: Status) returns (r: Decoded)
    requires start <= |Live(PulsesOf(sym))| && InsideValid(d0)
    ensures r == DecodeBody(d0, opening, Live(PulsesOf(sym))[start..])
  {
    hide TakeGap, TakeActive, Verdict, Report, PulsesOf, Live;
    ghost var all := Live(PulsesOf(sym));
    var idx, d := start, d0;
    while true
      invariant 0 <= idx <= |all| && InsideValid(d)
      invariant DecodeBody(d0, opening, all[start..]) == DecodeBody(d, opening, all[idx..])
      decreases |all| - idx
    {
      var more, p := NextPulse(sym, idx);
      if !more {
        break;
      }
      if p.active {
        return Report(d, BadSymbol);
      }
      var gap := d.prev + p.us;
      more, p := NextPulse(sym, idx + 1);
      if !more {
        break;
      }
      var t := TakeGap(d, gap);
      if t.Go? {
        t := TakeActive(t.d, p.us);
      }
      if t.Stop? {
        return Report(t.d, t.status);
      }
      assert all[idx..][2..] == all[idx + 2..];
      if t.Done? {
        return Verdict(t.d, opening);
      }
      d := t.d;
      idx := idx + 2;
    }
    return Verdict(d, opening);
  }
}
