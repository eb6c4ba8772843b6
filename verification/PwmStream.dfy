/** The streaming PWM decoder, which follows the bus edge by edge and says at
    once when the bytes so far end in their CRC. */
module PwmStream {
  import opened J1850Crc
  import opened J1850Bits
  import opened PwmCodec

  datatype Stream = Stream(data: seq<Octet>, bits: nat, byte: Octet, crc: Octet, valid: bool, first: bool)

  const IDLE := Stream([], 0, 0, 0, false, false)

  // ---- The windows of SAE J1850, Table 3, microseconds ----

  predicate IsSof(active: nat) { 27 <= active <= 34 }

  predicate IsBitWidth(active: nat) { 4 <= active <= 18 }

  /** A legal bit: its width, and the distance from the rising edge before. */
  predicate IsBitCell(active: nat, edge: nat, first: bool) {
    IsBitWidth(active) && if first then 42 <= edge <= 54 else 21 <= edge <= 27
  }

  /** The bit that a legal width stands for. */
  predicate ReadsOne(active: nat) { active < 11 }

  ghost function BitsIn(ws: seq<nat>): (bits: seq<bool>)
    ensures |bits| == |ws| && forall k :: 0 <= k < |ws| ==> bits[k] == ReadsOne(ws[k])
  {
    seq(|ws|, k requires 0 <= k < |ws| => ReadsOne(ws[k]))
  }

  // ---- The decoder ----

  datatype Fed = Fed(s: Stream, hit: bool)

  /** `j1850_pwm_stream_pulse`. */
  function Feed(s: Stream, active: nat, edge: nat): (r: Fed) {
    if SOF_MIN <= active <= SOF_MAX then Fed(Stream([], 0, 0, 0xFF, true, true), false)
    else if !s.valid then Fed(s, false)
    else if !(BIT_MIN <= active <= BIT_MAX) || |s.data| >= MAX_FRAME
            || !(if s.first then TP4_MIN <= edge <= TP4_MAX else TP3_MIN <= edge <= TP3_MAX)
    then Fed(s.(valid := false), false)
    else
      var byte := ShiftIn(s.byte, active < BIT_SPLIT);
      if s.bits + 1 != 8 then Fed(s.(first := false, byte := byte, bits := s.bits + 1), false)
      else
        var crc := Absorb(s.crc, byte);
        var r := s.(first := false, data := s.data + [byte], crc := crc, byte := 0, bits := 0);
        Fed(r, 4 <= |r.data| < MAX_FRAME && crc == RESIDUE)
  }

  class StreamDecoder {
    var data: seq<Octet>
    var bits: nat
    var byte: Octet
    var crc: Octet
    var valid: bool
    var first: bool

    ghost function View(): (s: Stream)
      reads this
    {
      Stream(data, bits, byte, crc, valid, first)
    }

    constructor ()
      ensures View() == IDLE
    {
      data, bits, byte, crc, valid, first := [], 0, 0, 0, false, false;
    }

    method Pulse(active: nat, edge: nat) returns (hit: bool)
      modifies this
      ensures Fed(View(), hit) == Feed(old(View()), active, edge)
    {
      hide ShiftIn, Absorb;
      if SOF_MIN <= active <= SOF_MAX {
        data, bits, byte, crc := [], 0, 0, 0xFF;
        valid, first := true, true;
        return false;
      }
      if !valid {
        return false;
      }
      var low, high := if first then TP4_MIN else TP3_MIN, if first then TP4_MAX else TP3_MAX;
      if active < BIT_MIN || active > BIT_MAX || edge < low || edge > high || |data| >= MAX_FRAME {
        valid := false;
        return false;
      }
      first := false;
      byte := ShiftIn(byte, active < BIT_SPLIT);
      bits := bits + 1;
      if bits != 8 {
        return false;
      }
      data := data + [byte];
      crc := AbsorbByte(crc, byte);
      byte, bits := 0, 0;
      return 4 <= |data| < MAX_FRAME && crc == RESIDUE;
    }
  }

  // ---- What it recognises ----

  /** What the edges since the last SOF spell, if they are all legal: the bits
      of whole bytes, and those of a byte begun. */
  datatype Spelled = Nothing | Spelled(whole: seq<bool>, part: seq<bool>)

  /** One active phase and its distance from the rising edge before. */
  datatype Edge = Edge(active: nat, gap: nat)

  ghost function Spell(h: seq<Edge>): (r: Spelled)
    ensures r.Spelled? ==> |r.whole| % 8 == 0 && |r.part| < 8
  {
    if h == [] then Nothing
    else SpellOn(Spell(h[..|h| - 1]), h[|h| - 1])
  }

  ghost function SpellOn(r: Spelled, e: Edge): (r': Spelled)
    requires r.Spelled? ==> |r.whole| % 8 == 0 && |r.part| < 8
    ensures r'.Spelled? ==> |r'.whole| % 8 == 0 && |r'.part| < 8
  {
    if IsSof(e.active) then Spelled([], [])
    else if r.Nothing? || !IsBitCell(e.active, e.gap, r.whole == [] && r.part == []) || |r.whole| >= 8 * MAX_FRAME
    then Nothing
    else
      var part := r.part + [ReadsOne(e.active)];
      if |part| == 8 then Spelled(r.whole + part, []) else Spelled(r.whole, part)
  }

  /** Whole bytes. */
  ghost function BytesOf(bits: seq<bool>): (d: seq<Octet>)
    ensures |bits| % 8 == 0 ==> 8 * |d| == |bits|
  {
    PackAll(bits).bytes
  }

  /** The bytes spelled so far are a CRC-terminated message of 4 to 11 bytes. */
  ghost predicate Complete(r: Spelled) {
    && r.Spelled? && r.part == [] && 4 <= |BytesOf(r.whole)| < MAX_FRAME
    && CrcCheck(BytesOf(r.whole))
  }

  /** The registers hold what has been spelled: whole bytes, the byte begun, and
      the running CRC. */
  ghost predicate Follows(s: Stream, r: Spelled) {
    match r
    case Nothing => !s.valid
    case Spelled(whole, part) =>
      && s.valid && |whole| % 8 == 0 && |part| < 8
      && s.data == BytesOf(whole) && s.crc == Register(s.data)
      && s.bits == |part| && s.byte == ShiftAll(part)
      && (s.first <==> whole == [] && part == [])
  }

  ghost function Run(h: seq<Edge>): (s: Stream) {
    if h == [] then IDLE else Feed(Run(h[..|h| - 1]), h[|h| - 1].active, h[|h| - 1].gap).s
  }

  lemma {:induction false} FreshFollows()
    ensures Follows(Stream([], 0, 0, 0xFF, true, true), Spelled([], []))
  {
    assert PackAll([]) == EMPTY;
  }

  /** The bit that completes a byte: the byte shifted in is the byte packed, and
      the register checks exactly when the bytes do. */
  lemma {:induction false} ByteCompleted(data: seq<Octet>, crc: Octet, whole: seq<bool>, eight: seq<bool>, byte: Octet)
    requires |whole| % 8 == 0 && |eight| == 8 && byte == ShiftAll(eight)
    requires data == BytesOf(whole) && crc == Register(data)
    ensures data + [byte] == BytesOf(whole + eight)
    ensures Absorb(crc, byte) == Register(data + [byte])
    ensures |data + [byte]| >= 2 ==> (Absorb(crc, byte) == RESIDUE <==> CrcCheck(data + [byte]))
  {
    WholeByte(whole, eight);
    RegisterAppend(data, byte);
    ResidueIffCrc(data + [byte]);
  }

  lemma {:induction false} FeedFollows(s: Stream, r: Spelled, e: Edge)
    requires Follows(s, r)
    ensures var f := Feed(s, e.active, e.gap);
            Follows(f.s, SpellOn(r, e)) && (f.hit <==> Complete(SpellOn(r, e)))
            && (f.hit ==> f.s.data == BytesOf(SpellOn(r, e).whole))
  {
    if IsSof(e.active) {
      FreshFollows();
      NotYetComplete([]);
    } else if SpellOn(r, e).Spelled? {
      BitFollows(s, r, e);
    }
  }

  lemma {:induction false} NotYetComplete(whole: seq<bool>)
    requires |whole| < 32
    ensures !Complete(Spelled(whole, []))
  {
  }

  lemma {:induction false} BitFollows(s: Stream, r: Spelled, e: Edge)
    requires Follows(s, r) && !IsSof(e.active) && SpellOn(r, e).Spelled?
    ensures var f := Feed(s, e.active, e.gap);
            Follows(f.s, SpellOn(r, e)) && (f.hit <==> Complete(SpellOn(r, e)))
            && (f.hit ==> f.s.data == BytesOf(SpellOn(r, e).whole))
  {
    hide ShiftIn, Absorb, Register, CrcCheck, PackAll;
    var one := ReadsOne(e.active);
    ShiftNext(r.part, one);
    if |r.part| == 7 {
      ByteCompleted(s.data, s.crc, r.whole, r.part + [one], ShiftIn(s.byte, one));
      EmptyByte();
    }
  }

  lemma {:induction false} EmptyByte()
    ensures ShiftAll([]) == 0
  {
  }

  lemma {:induction false} RunFollows(h: seq<Edge>)
    ensures Follows(Run(h), Spell(h))
  {
    if h != [] {
      RunFollows(h[..|h| - 1]);
      FeedFollows(Run(h[..|h| - 1]), Spell(h[..|h| - 1]), h[|h| - 1]);
    }
  }

  /** For every sequence of edges: the stream decoder says yes exactly at those
      byte boundaries where everything since the last SOF was legal and the 4 to
      11 bytes it spells end in their own CRC. */
  lemma {:induction false} StreamHitsExactly(h: seq<Edge>, e: Edge)
    ensures var f := Feed(Run(h), e.active, e.gap);
            && (f.hit <==> Complete(Spell(h + [e])))
            && (f.hit ==> f.s.data == BytesOf(Spell(h + [e]).whole))
  {
    assert (h + [e])[..|h|] == h;
    RunFollows(h);
    FeedFollows(Run(h), Spell(h), e);
  }
}
