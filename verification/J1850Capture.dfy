/** Pulse captures as the peripheral delivers them. */
module J1850Capture {
  datatype Pulse = Pulse(active: bool, us: nat)

  /** Two pulses as the capture and transmit peripheral stores them. */
  datatype Symbol = Symbol(first: Pulse, second: Pulse)

  /** The pulses of a symbol array, in order. */
  ghost function PulsesOf(sym: seq<Symbol>): (p: seq<Pulse>)
    ensures |p| == 2 * |sym|
  {
    seq(2 * |sym|, i requires 0 <= i < 2 * |sym| =>
      if i % 2 == 0 then sym[i / 2].first else sym[i / 2].second)
  }

  /** The captured pulses up to the end marker, a zero duration. */
  function Live(ps: seq<Pulse>): (r: seq<Pulse>)
    ensures |r| <= |ps| && r == ps[..|r|]
    ensures forall i :: 0 <= i < |r| ==> r[i].us > 0
    ensures |r| < |ps| ==> ps[|r|].us == 0
  {
    if ps == [] || ps[0].us == 0 then [] else [ps[0]] + Live(ps[1..])
  }

  /** `pulse_next`: the pulse at `idx`, or the end of the capture. */
  method NextPulse(sym: seq<Symbol>, idx: nat) returns (more: bool, p: Pulse)
    requires idx <= |Live(PulsesOf(sym))|
    ensures more <==> idx < |Live(PulsesOf(sym))|
    ensures more ==> p == Live(PulsesOf(sym))[idx]
  {
    if idx >= 2 * |sym| {
      return false, Pulse(false, 0);
    }
    var s := sym[idx / 2];
    p := if idx % 2 == 1 then s.second else s.first;
    assert p == PulsesOf(sym)[idx];
    more := p.us != 0;
  }

  ghost function FlatSym(sym: seq<Symbol>): (ps: seq<Pulse>)
    ensures |ps| == 2 * |sym|
  {
    if sym == [] then [] else [sym[0].first, sym[0].second] + FlatSym(sym[1..])
  }

  lemma {:induction false} FlatIsPulses(sym: seq<Symbol>)
    ensures FlatSym(sym) == PulsesOf(sym)
  {
    if sym != [] {
      FlatIsPulses(sym[1..]);
      var ps := PulsesOf(sym);
      assert ps == [ps[0], ps[1]] + ps[2..];
      assert ps[2..] == PulsesOf(sym[1..]);
    }
  }

  /** The bus is idle throughout. */
  ghost predicate AllPassive(ps: seq<Pulse>) {
    forall i :: 0 <= i < |ps| ==> !ps[i].active
  }

  /** A capture without an end marker is all live. */
  lemma {:induction false} AllLive(ps: seq<Pulse>)
    requires forall i :: 0 <= i < |ps| ==> ps[i].us > 0
    ensures Live(ps) == ps
  {
    if ps != [] {
      AllLive(ps[1..]);
      assert ps == [ps[0]] + ps[1..];
    }
  }
}
