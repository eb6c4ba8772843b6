/** The CRC-8 that both SAE J1850 modulations put at the end of a frame. */
module J1850Crc {
  type Octet = bv8

  const RESIDUE: Octet := 0xC4

  /** One turn of the register: x^8 + x^4 + x^3 + x^2 + 1. */
  function Shift(r: Octet): (s: Octet) {
    if r & 0x80 != 0 then (r << 1) ^ 0x1D else r << 1
  }

  function Shifts(r: Octet, n: nat): (s: Octet) {
    if n == 0 then r else Shift(Shifts(r, n - 1))
  }

  /** The register after one more byte. */
  function Absorb(r: Octet, b: Octet): (s: Octet) {
    Shift(Shift(Shift(Shift(Shift(Shift(Shift(Shift(r ^ b))))))))
  }

  /** The register after the bytes `d`, from all ones. */
  function Register(d: seq<Octet>): (r: Octet) {
    if d == [] then 0xFF else Absorb(Register(d[..|d| - 1]), d[|d| - 1])
  }

  function Crc(d: seq<Octet>): (c: Octet) { !Register(d) }

  predicate CrcCheck(d: seq<Octet>) {
    |d| >= 2 && d[|d| - 1] == Crc(d[..|d| - 1])
  }

  lemma {:induction false} EightShifts(r: Octet, b: Octet)
    ensures Shifts(r ^ b, 8) == Absorb(r, b)
  {
    var x := r ^ b;
    assert Shifts(x, 1) == Shift(Shifts(x, 0));
    assert Shifts(x, 2) == Shift(Shifts(x, 1));
    assert Shifts(x, 3) == Shift(Shifts(x, 2));
    assert Shifts(x, 4) == Shift(Shifts(x, 3));
    assert Shifts(x, 5) == Shift(Shifts(x, 4));
    assert Shifts(x, 6) == Shift(Shifts(x, 5));
    assert Shifts(x, 7) == Shift(Shifts(x, 6));
    assert Shifts(x, 8) == Shift(Shifts(x, 7));
  }

  method AbsorbByte(r: Octet, b: Octet) returns (crc: Octet)
    ensures crc == Absorb(r, b)
  {
    crc := r ^ b;
    for bit := 0 to 8
      invariant crc == Shifts(r ^ b, bit)
    {
      crc := if crc & 0x80 != 0 then (crc << 1) ^ 0x1D else crc << 1;
    }
    EightShifts(r, b);
  }

  /** `j1850_crc`. */
  method ComputeCrc(data: seq<Octet>) returns (c: Octet)
    ensures c == Crc(data)
  {
    var crc: Octet := 0xFF;
    for i := 0 to |data|
      invariant crc == Register(data[..i])
    {
      crc := AbsorbByte(crc, data[i]);
      assert data[..i + 1][..i] == data[..i];
    }
    assert data[..|data|] == data;
    return !crc;
  }

  /** Turning the register loses nothing. */
  lemma {:induction false} ShiftInjective(x: Octet, y: Octet)
    requires Shift(x) == Shift(y)
    ensures x == y
  {
  }

  lemma {:induction false} AbsorbInjective(x: Octet, y: Octet, b: Octet, c: Octet)
    requires Absorb(x, b) == Absorb(y, c)
    ensures x ^ b == y ^ c
  {
    var p, q := x ^ b, y ^ c;
    var p1, q1 := Shift(p), Shift(q);
    var p2, q2 := Shift(p1), Shift(q1);
    var p3, q3 := Shift(p2), Shift(q2);
    var p4, q4 := Shift(p3), Shift(q3);
    var p5, q5 := Shift(p4), Shift(q4);
    var p6, q6 := Shift(p5), Shift(q5);
    var p7, q7 := Shift(p6), Shift(q6);
    ShiftInjective(p7, q7);
    ShiftInjective(p6, q6);
    ShiftInjective(p5, q5);
    ShiftInjective(p4, q4);
    ShiftInjective(p3, q3);
    ShiftInjective(p2, q2);
    ShiftInjective(p1, q1);
    ShiftInjective(p, q);
  }

  lemma {:induction false} ResidueOfAllOnes(r: Octet)
    ensures Absorb(r, !r) == RESIDUE
  {
    assert r ^ !r == 0xFF;
  }

  /** The running register holds the residue exactly when the last byte is the
      CRC of all the bytes before it, whatever their number. */
  lemma {:induction false} ResidueIffCrc(d: seq<Octet>)
    requires d != []
    ensures Register(d) == RESIDUE <==> d[|d| - 1] == Crc(d[..|d| - 1])
  {
    var r, last := Register(d[..|d| - 1]), d[|d| - 1];
    ResidueOfAllOnes(r);
    if Register(d) == RESIDUE {
      AbsorbInjective(r, r, last, !r);
      Cancel(r, last, !r);
    }
  }

  lemma {:induction false} Cancel(r: Octet, b: Octet, c: Octet)
    requires r ^ b == r ^ c
    ensures b == c
  {
    assert r ^ (r ^ b) == b && r ^ (r ^ c) == c;
  }

  lemma {:induction false} AbsorbApart(x: Octet, y: Octet, b: Octet)
    requires x != y
    ensures Absorb(x, b) != Absorb(y, b)
  {
    hide Absorb;
    if Absorb(x, b) == Absorb(y, b) {
      AbsorbInjective(x, y, b, b);
    }
  }

  lemma {:induction false} AbsorbTells(r: Octet, b: Octet, c: Octet)
    requires b != c
    ensures Absorb(r, b) != Absorb(r, c)
  {
    hide Absorb;
    if Absorb(r, b) == Absorb(r, c) {
      AbsorbInjective(r, r, b, c);
    }
  }

  lemma {:induction false} RegisterAppend(d: seq<Octet>, b: Octet)
    ensures Register(d + [b]) == Absorb(Register(d), b)
  {
    assert (d + [b])[..|d|] == d;
  }

  /** Two different registers stay different over any common continuation. */
  lemma {:induction false} DifferencePersists(d: seq<Octet>, e: seq<Octet>, tail: seq<Octet>)
    requires Register(d) != Register(e)
    ensures Register(d + tail) != Register(e + tail)
  {
    hide Absorb, Register;
    if tail == [] {
      assert d + tail == d && e + tail == e;
    } else {
      var init, last := tail[..|tail| - 1], tail[|tail| - 1];
      DifferencePersists(d, e, init);
      assert d + tail == (d + init) + [last] && e + tail == (e + init) + [last];
      RegisterAppend(d + init, last);
      RegisterAppend(e + init, last);
      AbsorbApart(Register(d + init), Register(e + init), last);
    }
  }

  /** Damage confined to one byte, wherever it is, never passes the check. */
  lemma {:induction false} OneByteErrorCaught(d: seq<Octet>, i: nat, b: Octet)
    requires i < |d| && b != d[i] && CrcCheck(d)
    ensures !CrcCheck(d[i := b])
  {
    hide Absorb, Register, Crc;
    var e := d[i := b];
    var head, tail := d[..i], d[i + 1..];
    assert d == (head + [d[i]]) + tail && e == (head + [b]) + tail;
    RegisterAppend(head, d[i]);
    RegisterAppend(head, b);
    AbsorbTells(Register(head), d[i], b);
    DifferencePersists(head + [d[i]], head + [b], tail);
    ResidueIffCrc(d);
    ResidueIffCrc(e);
  }
}
