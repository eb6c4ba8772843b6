/** What the CRC-32 of a frame is for: damage to one byte is always noticed. */
module WireDamage {
  import opened Bytes
  import opened Numbers
  import opened Wire

  // ---- Exclusive or loses nothing ----

  lemma {:induction false} XorLeft(x: nat, z: nat, y: nat, n: nat)
    requires x < Pow2(n) && z < Pow2(n) && XorBits(x, y, n) == XorBits(z, y, n)
    ensures x == z
    decreases n
  {
    if n > 0 {
      Halves(x % 2, z % 2, y % 2, XorBits(x / 2, y / 2, n - 1), XorBits(z / 2, y / 2, n - 1));
      XorLeft(x / 2, z / 2, y / 2, n - 1);
    }
  }

  /** The lowest bit and the rest of a sum are told apart. */
  lemma {:induction false} Halves(a: nat, b: nat, c: nat, x: nat, z: nat)
    requires a < 2 && b < 2 && c < 2 && (a + c) % 2 + 2 * x == (b + c) % 2 + 2 * z
    ensures a == b && x == z
  {
  }

  lemma {:induction false} XorRight(y: nat, x: nat, z: nat, n: nat)
    requires x < Pow2(n) && z < Pow2(n) && XorBits(y, x, n) == XorBits(y, z, n)
    ensures x == z
    decreases n
  {
    if n > 0 {
      Halves(x % 2, z % 2, y % 2, XorBits(y / 2, x / 2, n - 1), XorBits(y / 2, z / 2, n - 1));
      XorRight(y / 2, x / 2, z / 2, n - 1);
    }
  }

  lemma {:induction false} XorZero(x: nat, n: nat)
    requires x < Pow2(n)
    ensures XorBits(x, 0, n) == x
    decreases n
  {
    if n > 0 {
      XorZero(x / 2, n - 1);
    }
  }

  /** The highest bit of one operand shows if the other does not have it. */
  lemma {:induction false} XorTop(x: nat, y: nat, n: nat)
    requires 0 < n && x < Pow2(n - 1) <= y < Pow2(n)
    ensures XorBits(x, y, n) >= Pow2(n - 1)
    decreases n
  {
    if n > 1 {
      XorTop(x / 2, y / 2, n - 1);
    } else {
      assert XorBits(x / 2, y / 2, 0) == 0;
    }
  }

  /** Turning the register loses nothing: the bit shifted out comes back on top. */
  lemma {:induction false} TurnedApart(c: Word, d: Word)
    requires c != d
    ensures Turned(c) != Turned(d)
  {
    WordBits();
    assert Pow2(32) == 2 * Pow2(31);
    hide Pow2, XorBits;
    if c % 2 == d % 2 {
      if Turned(c) == Turned(d) {
        XorLeft(c / 2, d / 2, if c % 2 == 1 then 0xedb8_8320 else 0, 32);
      }
    } else {
      var odd, even := if c % 2 == 1 then c else d, if c % 2 == 1 then d else c;
      XorTop(odd / 2, 0xedb8_8320, 32);
      XorZero(even / 2, 32);
    }
  }

  lemma {:induction false} TurnsApart(c: Word, d: Word, n: nat)
    requires c != d
    ensures Turns(c, n) != Turns(d, n)
  {
    hide Turned;
    if n > 0 {
      TurnsApart(c, d, n - 1);
      TurnedApart(Turns(c, n - 1), Turns(d, n - 1));
    }
  }

  /** One more byte keeps registers apart, and different bytes set them apart. */
  lemma {:induction false} AbsorbApart(c: Word, d: Word, b: Byte, e: Byte)
    requires (c != d && b == e) || (c == d && b != e)
    ensures Turns(Xor(c, b), 8) != Turns(Xor(d, e), 8)
  {
    WordBits();
    hide Pow2, XorBits, Turns;
    if Xor(c, b) == Xor(d, e) {
      if b == e {
        XorLeft(c, d, b, 32);
      } else {
        XorRight(c, b, e, 32);
      }
    }
    TurnsApart(Xor(c, b), Xor(d, e), 8);
  }

  lemma {:induction false} CrcApart(data: seq<Byte>, i: nat, v: Byte)
    requires i < |data| && v != data[i]
    ensures Register32(data[i := v]) != Register32(data)
    decreases |data|
  {
    hide Turns, Xor;
    var n := |data| - 1;
    var e := data[i := v];
    if i < n {
      assert e[..n] == data[..n][i := v];
      CrcApart(data[..n], i, v);
      AbsorbApart(Register32(e[..n]), Register32(data[..n]), e[n], data[n]);
    } else {
      assert e[..n] == data[..n];
      AbsorbApart(Register32(e[..n]), Register32(data[..n]), e[n], data[n]);
    }
  }

  /** Change any one byte of an intact frame behind its magic, CRC included: what
      still has the shape of a frame is no longer intact. */
  lemma {:induction false} OneByteDamageCaught(b: seq<Byte>, i: nat, v: Byte)
    requires Whole(b) && Intact(b) && MAGIC_SIZE <= i < |b| && v != b[i] && Whole(b[i := v])
    ensures !Intact(b[i := v])
  {
    hide Register32, Get32;
    var d := b[i := v];
    var end := HEADER_SIZE + Announced(b);
    assert Announced(d) == Announced(b);
    if i < end {
      assert d[MAGIC_SIZE..end] == b[MAGIC_SIZE..end][i - MAGIC_SIZE := v];
      CrcApart(b[MAGIC_SIZE..end], i - MAGIC_SIZE, v);
      assert d[end..end + CRC_SIZE] == b[end..end + CRC_SIZE];
    } else {
      assert d[MAGIC_SIZE..end] == b[MAGIC_SIZE..end];
      var was, now := b[end..end + CRC_SIZE], d[end..end + CRC_SIZE];
      assert was[i - end] != now[i - end];
      PutGet32(was);
      PutGet32(now);
    }
  }
}
