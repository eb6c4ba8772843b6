/** Bytes, and the little-endian integers made of them. */
module Bytes {
  import opened Clock

  type Byte = b: int | 0 <= b < 256

  type Word = Time

  function Put16(v: nat): (b: seq<Byte>)
    requires v < 0x1_0000
    ensures |b| == 2
  {
    [v % 256, v / 256]
  }

  function Get16(b: seq<Byte>): (v: nat)
    requires |b| == 2
    ensures v < 0x1_0000
  {
    var low: int, high: int := b[0], b[1];
    low + 256 * high
  }

  /** `j2534_put32`. */
  function Put32(v: Word): (b: seq<Byte>)
    ensures |b| == 4
  {
    Put16(v % 0x1_0000) + Put16(v / 0x1_0000)
  }

  /** `j2534_u32`. */
  function Get32(b: seq<Byte>): (v: Word)
    requires |b| == 4
  {
    Get16(b[..2]) + 0x1_0000 * Get16(b[2..])
  }

  /** The lowest byte first. */
  lemma {:induction false} LittleEndian(b: seq<Byte>)
    requires |b| == 4
    ensures var b0: int, b1: int, b2: int, b3: int := b[0], b[1], b[2], b[3];
            && Get16(b[..2]) == b0 + 0x100 * b1
            && Get32(b) == b0 + 0x100 * b1 + 0x1_0000 * b2 + 0x100_0000 * b3
  {
  }

  lemma {:induction false} GetPut32(v: Word)
    ensures Get32(Put32(v)) == v
  {
    var low, high := Put16(v % 0x1_0000), Put16(v / 0x1_0000);
    assert Put32(v)[..2] == low && Put32(v)[2..] == high;
  }

  lemma {:induction false} PutGet32(b: seq<Byte>)
    requires |b| == 4
    ensures Put32(Get32(b)) == b
  {
    var low, high := Get16(b[..2]), Get16(b[2..]);
    assert Get32(b) % 0x1_0000 == low && Get32(b) / 0x1_0000 == high;
    assert Put16(low) == b[..2] && Put16(high) == b[2..];
    assert b == b[..2] + b[2..];
  }

  /** The bytes of a list of words. */
  function Words(ws: seq<Word>): (b: seq<Byte>)
    ensures |b| == 4 * |ws|
  {
    if ws == [] then [] else Words(ws[..|ws| - 1]) + Put32(ws[|ws| - 1])
  }

  lemma {:induction false} WordAt(ws: seq<Word>, k: nat)
    requires k < |ws|
    ensures Get32(Words(ws)[4 * k..4 * k + 4]) == ws[k]
  {
    hide Get32, Put32;
    var n := |ws| - 1;
    var init := Words(ws[..n]);
    if k < n {
      WordAt(ws[..n], k);
      assert Words(ws)[4 * k..4 * k + 4] == init[4 * k..4 * k + 4];
    } else {
      GetPut32(ws[n]);
      assert Words(ws)[4 * k..4 * k + 4] == Put32(ws[n]);
    }
  }
}
