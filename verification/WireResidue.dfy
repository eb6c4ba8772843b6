/** Which CRC-32 the frames carry: division by the polynomial of IEEE 802.3, lowest
    bit first, and the residue that this leaves. */
module WireResidue {
  import opened Clock
  import opened Bytes
  import opened Numbers
  import opened Wire
  import Damage = WireDamage

  // ---- Exclusive or ----

  lemma {:induction false} LowAndRest(bit: nat, rest: nat)
    requires bit < 2
    ensures (bit + 2 * rest) % 2 == bit && (bit + 2 * rest) / 2 == rest
  {
  }

  lemma {:induction false} SumOfThree(a: nat, b: nat, c: nat)
    requires a < 2 && b < 2 && c < 2
    ensures ((a + b) % 2 + c) % 2 == (a + (b + c) % 2) % 2
  {
  }

  lemma {:induction false} XorNone(x: nat, y: nat)
    ensures XorBits(x, y, 0) == 0
  {
  }

  lemma {:induction false} XorUnfolds(x: nat, y: nat, n: nat)
    ensures XorBits(x, y, n + 1) == (x % 2 + y % 2) % 2 + 2 * XorBits(x / 2, y / 2, n)
  {
  }

  lemma {:induction false} XorTogether(x: nat, y: nat, z: nat, n: nat)
    ensures XorBits(XorBits(x, y, n), z, n) == XorBits(x, XorBits(y, z, n), n)
    decreases n
  {
    hide Pow2, XorBits;
    if n == 0 {
      XorNone(x, y);
      XorNone(y, z);
      XorNone(XorBits(x, y, 0), z);
      XorNone(x, XorBits(y, z, 0));
    } else {
      var (a, b, c) := (x % 2, y % 2, z % 2);
      var xy, yz := XorBits(x / 2, y / 2, n - 1), XorBits(y / 2, z / 2, n - 1);
      XorUnfolds(x, y, n - 1);
      XorUnfolds(y, z, n - 1);
      XorUnfolds(XorBits(x, y, n), z, n - 1);
      XorUnfolds(x, XorBits(y, z, n), n - 1);
      LowAndRest((a + b) % 2, xy);
      LowAndRest((b + c) % 2, yz);
      SumOfThree(a, b, c);
      XorTogether(x / 2, y / 2, z / 2, n - 1);
    }
  }

  lemma {:induction false} XorTurns(x: nat, y: nat, n: nat)
    ensures XorBits(x, y, n) == XorBits(y, x, n)
    decreases n
  {
    if n > 0 {
      XorTurns(x / 2, y / 2, n - 1);
    }
  }

  /** One more place makes no difference to numbers that do not reach it. */
  lemma {:induction false} XorWiden(x: nat, y: nat, n: nat)
    requires x < Pow2(n) && y < Pow2(n)
    ensures XorBits(x, y, n + 1) == XorBits(x, y, n)
    decreases n
  {
    if n > 0 {
      XorWiden(x / 2, y / 2, n - 1);
    } else {
      assert XorBits(0, 0, 0) == 0;
    }
  }

  /** `k` places up. */
  function Up(y: nat, k: nat): (r: nat) { if k == 0 then y else 2 * Up(y, k - 1) }

  lemma {:induction false} UpInner(y: nat, k: nat)
    requires k > 0
    ensures Up(y, k) == Up(2 * y, k - 1) && Up(y, k) >= 2 * y
  {
    if k > 1 {
      UpInner(y, k - 1);
    }
  }

  /** Bits in different places are put side by side. */
  lemma {:induction false} XorApart(b: nat, y: nat, k: nat, n: nat)
    requires b < Pow2(k) && k <= n && Up(y, k) < Pow2(n)
    ensures XorBits(b, Up(y, k), n) == b + Up(y, k)
    decreases n
  {
    if k == 0 {
      XorTurns(0, y, n);
      Damage.XorZero(y, n);
    } else {
      LowAndRest(0, Up(y, k - 1));
      XorApart(b / 2, y, k - 1, n - 1);
    }
  }

  lemma {:induction false} XorComplement(x: nat, n: nat)
    requires x < Pow2(n)
    ensures XorBits(x, Pow2(n) - 1 - x, n) == Pow2(n) - 1
    decreases n
  {
    if n > 0 {
      var y := Pow2(n) - 1 - x;
      assert y % 2 == 1 - x % 2 && y / 2 == Pow2(n - 1) - 1 - x / 2;
      XorComplement(x / 2, n - 1);
    }
  }

  // ---- Turning several places at once ----

  /** What lies above the lowest bit only moves down. */
  lemma {:induction false} TurnedAbove(x: Word, y: Word)
    requires y < HALF
    ensures Turned(Xor(x, 2 * y)) == Xor(Turned(x), y)
  {
    WordBits();
    assert Pow2(32) == 2 * Pow2(31);
    var p: Word := if x % 2 == 1 then 0xedb8_8320 else 0;
    LowestBit(x, y);
    XorWiden(x / 2, y, 31);
    assert Xor(x, 2 * y) / 2 == Xor(x / 2, y);
    hide Pow2, XorBits;
    XorTogether(x / 2, y, p, 32);
    XorTurns(y, p, 32);
    XorTogether(x / 2, p, y, 32);
  }

  lemma {:induction false} LowestBit(x: Word, y: Word)
    requires y < HALF
    ensures Xor(x, 2 * y) % 2 == x % 2 && Xor(x, 2 * y) / 2 == XorBits(x / 2, y, 31)
  {
    LowAndRest(0, y);
    XorUnfolds(x, 2 * y, 31);
    LowAndRest(x % 2, XorBits(x / 2, y, 31));
    hide XorBits, Pow2;
  }

  lemma {:induction false} TurnsAbove(x: Word, y: Word, k: nat)
    requires Up(y, k) < WRAP
    ensures Turns(Xor(x, Up(y, k)), k) == Xor(Turns(x, k), y)
    decreases k
  {
    hide Turned, Xor;
    if k > 0 {
      UpInner(y, k);
      TurnsAbove(x, 2 * y, k - 1);
      TurnedAbove(Turns(x, k - 1), y);
    }
  }

  lemma {:induction false} TurnsAdd(x: Word, k: nat, n: nat)
    ensures Turns(x, k + n) == Turns(Turns(x, k), n)
    decreases n
  {
    hide Turned;
    if n > 0 {
      TurnsAdd(x, k, n - 1);
    }
  }

  /** The register after the bytes of a number of `n` bits, lowest first. */
  function Absorbed(x: Word, w: nat, n: nat): (r: Word)
    decreases n
  {
    if n < 8 then x else Absorbed(Turns(Xor(x, w % 256), 8), w / 256, n - 8)
  }

  lemma {:induction false} OneByteUp(y: nat, n: nat)
    ensures Up(y, 8) == 256 * y && Pow2(8) == 256 && Pow2(n + 8) == 256 * Pow2(n)
  {
    assert Up(y, 1) == 2 * y;
    assert Up(y, 2) == 4 * y;
    assert Up(y, 3) == 8 * y;
    assert Up(y, 4) == 16 * y;
    assert Up(y, 5) == 32 * y;
    assert Up(y, 6) == 64 * y;
    assert Up(y, 7) == 128 * y;
    assert Pow2(n + 2) == 4 * Pow2(n);
    assert Pow2(n + 4) == 16 * Pow2(n);
    assert Pow2(n + 6) == 64 * Pow2(n);
  }

  /** The lowest byte and the others go in one after the other. */
  lemma {:induction false} ByteApart(x: Word, w: Word)
    ensures w / 256 < WRAP && Up(w / 256, 8) < WRAP
    ensures Xor(x, w) == Xor(Xor(x, w % 256), Up(w / 256, 8))
  {
    WordBits();
    OneByteUp(w / 256, 0);
    hide Pow2, XorBits, Up;
    XorApart(w % 256, w / 256, 8, 32);
    XorTogether(x, w % 256, Up(w / 256, 8), 32);
  }

  /** Absorbing bytes one by one is turning all their bits at once. */
  lemma {:induction false} AbsorbsWord(x: Word, w: Word, n: nat)
    requires w < Pow2(n) && n <= 32 && n % 8 == 0
    ensures Absorbed(x, w, n) == Turns(Xor(x, w), n)
    decreases n
  {
    if n == 0 {
      WordBits();
      Damage.XorZero(x, 32);
    } else {
      hide Turns, Turned, Pow2, XorBits, Up, Xor;
      var b, y := w % 256, w / 256;
      OneByteUp(y, n - 8);
      ByteApart(x, w);
      TurnsAbove(Xor(x, b), y, 8);
      TurnsAdd(Xor(x, w), 8, n - 8);
      AbsorbsWord(Turns(Xor(x, b), 8), y, n - 8);
    }
  }

  lemma {:induction false} RegisterNext(data: seq<Byte>, b: Byte)
    ensures Register32(data + [b]) == Turns(Xor(Register32(data), b), 8)
  {
    assert (data + [b])[..|data|] == data;
  }

  lemma {:induction false} AbsorbsBytes(data: seq<Byte>, w: Word)
    ensures Register32(data + Put32(w)) == Absorbed(Register32(data), w, 32)
  {
    hide Register32, Turns, Xor;
    var b0, b1, b2, b3 := w % 256, w / 256 % 256, w / 256 / 256 % 256, w / 256 / 256 / 256 % 256;
    FourBytes(w);
    assert data + Put32(w) == data + [b0] + [b1] + [b2] + [b3];
    RegisterNext(data, b0);
    RegisterNext(data + [b0], b1);
    RegisterNext(data + [b0] + [b1], b2);
    RegisterNext(data + [b0] + [b1] + [b2], b3);
    var r1 := Turns(Xor(Register32(data), b0), 8);
    var r2 := Turns(Xor(r1, b1), 8);
    var r3 := Turns(Xor(r2, b2), 8);
    assert Absorbed(r3, w / 256 / 256 / 256, 8) == Turns(Xor(r3, b3), 8);
    assert Absorbed(r2, w / 256 / 256, 16) == Absorbed(r3, w / 256 / 256 / 256, 8);
    assert Absorbed(r1, w / 256, 24) == Absorbed(r2, w / 256 / 256, 16);
  }

  lemma {:induction false} FourBytes(w: Word)
    ensures Put32(w) == [w % 256, w / 256 % 256, w / 256 / 256 % 256, w / 256 / 256 / 256 % 256]
  {
    Bytewise(w % 0x1_0000, w / 0x1_0000);
    assert w == w % 0x1_0000 + 0x1_0000 * (w / 0x1_0000);
  }

  lemma {:induction false} Bytewise(low: nat, high: nat)
    requires low < 0x1_0000 && high < 0x1_0000
    ensures var w := low + 0x1_0000 * high;
            && w % 256 == low % 256 && w / 256 % 256 == low / 256
            && w / 256 / 256 % 256 == high % 256 && w / 256 / 256 / 256 % 256 == high / 256
  {
    var w := low + 0x1_0000 * high;
    assert w == 256 * (low / 256 + 256 * high) + low % 256;
    assert w / 256 == low / 256 + 256 * high;
    assert w / 256 / 256 == high;
  }

  /** Whatever the data, with its own CRC behind it the register ends at the same
      value. */
  lemma {:induction false} ResidueLaw(data: seq<Byte>)
    ensures Register32(data + Put32(Crc32(data))) == Turns(WRAP - 1, 32)
  {
    var c := Register32(data);
    var w := Crc32(data);
    WordBits();
    hide Register32, Turns, Turned, Absorbed, Pow2, XorBits;
    AbsorbsBytes(data, w);
    AbsorbsWord(c, w, 32);
    XorComplement(c, 32);
  }

  // ---- The polynomial ----

  lemma {:induction false} XorBitOf(x: nat, y: nat, n: nat, i: nat)
    requires i < n
    ensures BitOf(XorBits(x, y, n), i) == (BitOf(x, i) != BitOf(y, i))
    decreases n
  {
    LowAndRest((x % 2 + y % 2) % 2, XorBits(x / 2, y / 2, n - 1));
    if i > 0 {
      XorBitOf(x / 2, y / 2, n - 1, i - 1);
    }
  }

  /** The exponents of the polynomial of IEEE 802.3 below 32. */
  predicate IsTerm(e: nat) {
    || e == 26 || e == 23 || e == 22 || e == 16 || e == 12 || e == 11 || e == 10
    || e == 8 || e == 7 || e == 5 || e == 4 || e == 2 || e == 1 || e == 0
  }

  /** Without its `k` lowest bits. */
  function Down(x: nat, k: nat): (y: nat) { if k == 0 then x else Down(x, k - 1) / 2 }

  lemma {:induction false} BitsBehind(x: nat, k: nat, i: nat)
    requires k <= i
    ensures BitOf(x, i) == BitOf(Down(x, k), i - k)
  {
    if k > 0 {
      BitsBehind(x, k - 1, i);
    }
  }

  lemma {:induction false} LowBits(x: nat, j: nat)
    requires j < 8
    ensures BitOf(x, j) <==> Down(x, j) % 2 == 1
    ensures Down(x, 1) == x / 2 && Down(x, 2) == Down(x, 1) / 2 && Down(x, 3) == Down(x, 2) / 2
    ensures Down(x, 4) == Down(x, 3) / 2 && Down(x, 5) == Down(x, 4) / 2 && Down(x, 6) == Down(x, 5) / 2
    ensures Down(x, 0) == x && Down(x, 7) == Down(x, 6) / 2
  {
    BitsBehind(x, j, j);
  }

  lemma {:induction false} EightDown(x: nat, k: nat)
    ensures Down(x, k + 8) == Down(x, k) / 256
  {
    var y := Down(x, k);
    assert Down(x, k + 1) == y / 2;
    assert Down(x, k + 2) == Down(x, k + 1) / 2;
    assert Down(x, k + 3) == Down(x, k + 2) / 2;
    assert Down(x, k + 4) == Down(x, k + 3) / 2;
    assert Down(x, k + 5) == Down(x, k + 4) / 2;
    assert Down(x, k + 6) == Down(x, k + 5) / 2;
    assert Down(x, k + 7) == Down(x, k + 6) / 2;
    hide Down;
  }

  lemma {:induction false} BytesDown(x: nat)
    ensures Down(x, 8) == x / 256 && Down(x, 16) == x / 256 / 256 && Down(x, 24) == x / 256 / 256 / 256
  {
    EightDown(x, 0);
    EightDown(x, 8);
    EightDown(x, 16);
  }

  /** The word of the source, byte by byte: bit `i` stands for the exponent
      `31 - i`. */
  lemma {:induction false} TermBits(i: nat)
    requires i < 32
    ensures BitOf(0xedb8_8320, i) <==> IsTerm(31 - i)
  {
    hide IsTerm, Down, BitOf;
    BytesDown(0xedb8_8320);
    if i < 8 {
      TermsBelow(i);
    } else if i < 16 {
      BitsBehind(0xedb8_8320, 8, i);
      TermsFrom8(i - 8);
    } else if i < 24 {
      BitsBehind(0xedb8_8320, 16, i);
      TermsFrom16(i - 16);
    } else {
      BitsBehind(0xedb8_8320, 24, i);
      TermsFrom24(i - 24);
    }
  }

  /** The eight lowest bits, with the halves worked out. */
  lemma {:induction false} EightBits(x: nat, d1: nat, d2: nat, d3: nat, d4: nat, d5: nat, d6: nat, d7: nat, j: nat)
    requires j < 8 && d1 == x / 2 && d2 == d1 / 2 && d3 == d2 / 2 && d4 == d3 / 2
    requires d5 == d4 / 2 && d6 == d5 / 2 && d7 == d6 / 2
    ensures BitOf(x, j) <==>
      (if j == 0 then x else if j == 1 then d1 else if j == 2 then d2 else if j == 3 then d3
       else if j == 4 then d4 else if j == 5 then d5 else if j == 6 then d6 else d7) % 2 == 1
  {
    hide BitOf, Down;
    LowBits(x, j);
  }

  lemma {:induction false} TermsBelow(j: nat)
    requires j < 8
    ensures BitOf(0xedb8_8320, j) <==> IsTerm(31 - j)
  {
    EightBits(0xedb8_8320, 0x76dc_4190, 0x3b6e_20c8, 0x1db7_1064, 0xedb_8832, 0x76d_c419, 0x3b6_e20c, 0x1db_7106, j);
    hide BitOf;
  }

  lemma {:induction false} TermsFrom8(j: nat)
    requires j < 8
    ensures BitOf(0xed_b883, j) <==> IsTerm(23 - j)
  {
    EightBits(0xed_b883, 0x76_dc41, 0x3b_6e20, 0x1d_b710, 0xe_db88, 0x7_6dc4, 0x3_b6e2, 0x1_db71, j);
    hide BitOf;
  }

  lemma {:induction false} TermsFrom16(j: nat)
    requires j < 8
    ensures BitOf(0xedb8, j) <==> IsTerm(15 - j)
  {
    EightBits(0xedb8, 0x76dc, 0x3b6e, 0x1db7, 0xedb, 0x76d, 0x3b6, 0x1db, j);
    hide BitOf;
  }

  lemma {:induction false} TermsFrom24(j: nat)
    requires j < 8
    ensures BitOf(0xed, j) <==> IsTerm(7 - j)
  {
    EightBits(0xed, 0x76, 0x3b, 0x1d, 0xe, 0x7, 0x3, 0x1, j);
    hide BitOf;
  }

  /** One turn of the register is one step of the division by that polynomial,
      lowest bit first: every bit moves down, and if a 1 leaves the register, the
      terms of the polynomial are taken away. */
  lemma {:induction false} TurnedDivides(c: Word, i: nat)
    requires i < 32
    ensures BitOf(Turned(c), i) <==> (BitOf(c, i + 1) != (BitOf(c, 0) && IsTerm(31 - i)))
  {
    hide IsTerm, XorBits;
    TermBits(i);
    XorBitOf(c / 2, if c % 2 == 1 then 0xedb8_8320 else 0, 32, i);
    NoneOf(i);
  }

  lemma {:induction false} NoneOf(i: nat)
    ensures !BitOf(0, i)
  {
    if i > 0 {
      NoneOf(i - 1);
    }
  }

  /** And a byte goes in at the low end. */
  lemma {:induction false} AbsorbsLow(c: Word, b: Byte, i: nat)
    requires i < 32
    ensures BitOf(Xor(c, b), i) <==> (BitOf(c, i) != BitOf(b, i))
  {
    XorBitOf(c, b, 32, i);
  }
}
