/** SAE J1850 VPW: one pulse a bit, its value given by level and width. */
module VpwCodec {
  import opened J1850Crc
  import opened J1850Bits
  import opened J1850Capture

  // ---- Table 5, microseconds ----

  const TV1 := 64
  const TV2 := 128
  const TV3 := 200
  const TV1_RX_MIN := 35
  const TV1_RX_MAX := 96
  const TV2_RX_MAX := 163
  const TV3_RX_MAX := 239

  // ---- Encoding ----

  function PulseCount(len: nat): (n: nat) { 2 + 8 * len }

  /** A bit at this level. */
  function BitPulse(active: bool, one: bool): (p: Pulse) {
    Pulse(active, if active == one then TV1 else TV2)
  }

  const SOF := Pulse(true, TV3)
  const EOD := Pulse(false, TV3)

  /** `j1850_vpw_pulse_at`: pulse `k` of the frame, worked out rather than stored. */
  function PulseAt(data: seq<Octet>, k: nat): (p: Pulse)
    requires k < PulseCount(|data|)
    ensures p.active <==> k % 2 == 0
    ensures p.us > 0
  {
    if k == 0 then SOF
    else if k == PulseCount(|data|) - 1 then EOD
    else BitPulse(k % 2 == 0, Bit(data[(k - 1) / 8], (k - 1) % 8))
  }

  /** The whole frame: SOF, bits, EOD. */
  ghost function Train(data: seq<Octet>): (t: seq<Pulse>)
    ensures |t| == PulseCount(|data|)
    ensures forall k :: 0 <= k < |t| ==> t[k] == PulseAt(data, k)
  {
    seq(PulseCount(|data|), k requires 0 <= k < PulseCount(|data|) => PulseAt(data, k))
  }

  /** `put_pulse`. */
  method PutPulse(out: array<Symbol>, i: nat, us: nat)
    requires i / 2 < out.Length
    modifies out
    ensures PulsesOf(out[..])[i] == Pulse(i % 2 == 0, us)
    ensures forall k :: 0 <= k < 2 * out.Length && k != i ==>
      PulsesOf(out[..])[k] == PulsesOf(old(out[..]))[k]
  {
    var s := out[i / 2];
    out[i / 2] := if i % 2 == 1 then s.(second := Pulse(false, us)) else s.(first := Pulse(true, us));
  }

  /** `j1850_vpw_encode`: the emitted train is pulse for pulse the computed one. */
  method Encode(data: seq<Octet>, out: array<Symbol>) returns (n: nat)
    modifies out
    ensures n == (if 0 < |data| <= MAX_FRAME && out.Length >= 4 * |data| + 1 then 4 * |data| + 1 else 0)
    ensures n > 0 ==> 2 * n == PulseCount(|data|)
    ensures n > 0 ==> forall k :: 0 <= k < 2 * n ==> PulsesOf(out[..])[k] == PulseAt(data, k)
    ensures n == 0 ==> out[..] == old(out[..])
  {
    var need := 4 * |data| + 1;
    if |data| == 0 || |data| > MAX_FRAME || out.Length < need {
      return 0;
    }
    var i := 0;
    PutPulse(out, i, TV3);
    i := i + 1;
    for b := 0 to |data|
      invariant i == 1 + 8 * b
      invariant forall k :: 0 <= k < i ==> PulsesOf(out[..])[k] == PulseAt(data, k)
    {
      var bit := 0;
      while bit < 8
        invariant 0 <= bit <= 8 && i == 1 + 8 * b + bit
        invariant forall k :: 0 <= k < i ==> PulsesOf(out[..])[k] == PulseAt(data, k)
      {
        var one := Bit(data[b], bit);
        var active := i % 2 == 0;
        var us := if active then (if one then TV1 else TV2) else (if one then TV2 else TV1);
        assert (i - 1) / 8 == b && (i - 1) % 8 == bit;
        PutPulse(out, i, us);
        i := i + 1;
        bit := bit + 1;
      }
    }
    PutPulse(out, i, TV3);
    i := i + 1;
    return i / 2;
  }

  // ---- Classification ----

  datatype Width = Invalid | Short | Long | Wide | Endless

  function Classify(us: nat): (w: Width) {
    if us < TV1_RX_MIN then Invalid
    else if us <= TV1_RX_MAX then Short
    else if us <= TV2_RX_MAX then Long
    else if us <= TV3_RX_MAX then Wide
    else Endless
  }

  predicate BitValue(active: bool, w: Width) { if active then w.Short? else w.Long? }

  // ---- Decoding ----

  datatype Status = Ok | IfrOnly | Break | Empty | NoSof | BadSymbol | Framing | TooLong | TooShort | BadCrc

  datatype Decoded = Decoded(status: Status, data: seq<Octet>, ifr: seq<Octet>, eod: bool, nb: bool, nbLong: bool)

  /** What the decoder has when it is inside a frame. */
  datatype Inside = Inside(data: Packer, ifr: Packer, inIfr: bool, needNb: bool, turn: bool,
                           eod: bool, nb: bool, nbLong: bool)

  function Report(d: Inside, status: Status): (r: Decoded) {
    Decoded(status, d.data.bytes, d.ifr.bytes, d.eod, d.nb, d.nbLong)
  }

  /** One pulse takes the decoder on, ends the frame, or ends it with a verdict. */
  datatype Turn = Go(d: Inside) | Done(d: Inside) | Stop(d: Inside, status: Status)

  function Field(d: Inside): (p: Packer) { if d.inIfr then d.ifr else d.data }

  function PushField(d: Inside, one: bool): (r: Inside)
    requires Field(d).count < 8
  {
    if d.inIfr then d.(ifr := Push(d.ifr, one)) else d.(data := Push(d.data, one))
  }

  predicate InsideValid(d: Inside) { d.data.count < 8 && d.ifr.count < 8 }

  function TakePulse(was: Inside, p: Pulse): (t: Turn)
    requires InsideValid(was)
    ensures InsideValid(t.d)
  {
    if p.active != was.turn then Stop(was, BadSymbol)
    else
      var d := was.(turn := !was.turn);
      match Classify(p.us)
      case Invalid => Stop(d, BadSymbol)
      case Endless => if p.active then Stop(d, Break) else Done(d)
      case Wide =>
        if p.active then Stop(d, BadSymbol)
        else if d.inIfr then Done(d)
        else if d.data.count != 0 then Stop(d, Framing)
        else Go(d.(inIfr := true, needNb := true, eod := true))
      case w =>
        if d.needNb then Go(d.(needNb := false, nb := true, nbLong := w.Long?))
        else if Full(Field(d)) then Stop(d, TooLong)
        else Go(PushField(d, BitValue(p.active, w)))
  }

  /** The verdict on a frame that has come to its end. */
  function Verdict(d: Inside, opening: Status): (r: Decoded) {
    if Field(d).count != 0 then Report(d, Framing)
    else if opening == IfrOnly then Report(d, if d.ifr.bytes == [] then Empty else IfrOnly)
    else if |d.data.bytes| < 2 then Report(d, TooShort)
    else if !CrcCheck(d.data.bytes) then Report(d, BadCrc)
    else Report(d, opening)
  }

  function DecodeBody(d: Inside, opening: Status, ps: seq<Pulse>): (r: Decoded)
    requires InsideValid(d)
    decreases |ps|
  {
    if ps == [] then Verdict(d, opening)
    else
      match TakePulse(d, ps[0])
      case Go(d') => DecodeBody(d', opening, ps[1..])
      case Done(d') => Verdict(d', opening)
      case Stop(d', status) => Report(d', status)
  }

  const NOTHING := Decoded(Empty, [], [], false, false, false)

  function StartInside(inIfr: bool, nbLong: bool): (d: Inside) {
    Inside(EMPTY, EMPTY, inIfr, false, false, false, inIfr, nbLong)
  }

  function DecodeFrom(ps: seq<Pulse>): (r: Decoded)
    decreases |ps|
  {
    if ps == [] then NOTHING
    else if !ps[0].active then DecodeFrom(ps[1..])
    else
      match Classify(ps[0].us)
      case Wide => DecodeBody(StartInside(false, false), Ok, ps[1..])
      case Endless => NOTHING.(status := Break)
      case Invalid => NOTHING.(status := NoSof)
      case w => DecodeBody(StartInside(true, w.Long?), IfrOnly, ps[1..])
  }

  /** `j1850_vpw_decode`: walks the capture pulse by pulse. */
  method Decode(sym: seq<Symbol>) returns (r: Decoded)
    ensures r == DecodeFrom(Live(PulsesOf(sym)))
  {
    hide TakePulse, Verdict, Report, PulsesOf, Live, Classify;
    ghost var all := Live(PulsesOf(sym));
    r := NOTHING;
    var idx := 0;
    var more, p := NextPulse(sym, idx);
    while more && !p.active
      invariant 0 <= idx <= |all|
      invariant more <==> idx < |all|
      invariant more ==> p == all[idx]
      invariant DecodeFrom(all) == DecodeFrom(all[idx..])
      decreases |all| - idx
    {
      assert all[idx..][1..] == all[idx + 1..];
      idx := idx + 1;
      more, p := NextPulse(sym, idx);
    }
    if !more {
      return;
    }
    var w := Classify(p.us);
    if w.Endless? {
      return NOTHING.(status := Break);
    }
    if w.Invalid? {
      return NOTHING.(status := NoSof);
    }
    var opening := if w.Wide? then Ok else IfrOnly;
    var d := StartInside(!w.Wide?, w.Long?);
    assert all[idx..][1..] == all[idx + 1..];
    idx := idx + 1;
    more, p := NextPulse(sym, idx);
    while more
      invariant 0 <= idx <= |all| && InsideValid(d)
      invariant more <==> idx < |all|
      invariant more ==> p == all[idx]
      invariant DecodeFrom(all) == DecodeBody(d, opening, all[idx..])
      decreases |all| - idx
    {
      var t := TakePulse(d, p);
      if t.Stop? {
        return Report(t.d, t.status);
      }
      if t.Done? {
        return Verdict(t.d, opening);
      }
      d := t.d;
      assert all[idx..][1..] == all[idx + 1..];
      idx := idx + 1;
      more, p := NextPulse(sym, idx);
    }
    return Verdict(d, opening);
  }
}
