/** What the framer does over whole byte streams. */
module WireRuns {
  import opened Clock
  import opened Bytes
  import opened Wire

  // ---- Frames there and back ----

  /** A frame as it is written reads back as the same fields. */
  lemma {:induction false} FramedParses(f: Fragment)
    requires FragmentOk(f)
    ensures Whole(Framed(f)) && Intact(Framed(f)) && Parse(Framed(f)) == f
  {
    hide Crc32, Put32, Get32;
    var b, c, n := Framed(f), Covered(f), |f.data|;
    assert b[4..16 + n] == c;
    assert b[16 + n..20 + n] == Put32(Crc32(c));
    CoveredReads(f);
    assert b[4] == c[0] && b[5] == c[1];
    assert b[6..8] == c[2..4] && b[8..12] == c[4..8] && b[12..14] == c[8..10] && b[14..16] == c[10..12];
    assert b[16..16 + n] == c[12..12 + n];
    GetPut32(Crc32(c));
  }

  lemma {:induction false} CoveredReads(f: Fragment)
    requires FragmentOk(f)
    ensures var c := Covered(f);
            && c[0] == VERSION && c[1] == f.op && Get16(c[2..4]) == f.flags && Get32(c[4..8]) == f.sequence
            && Get16(c[8..10]) == f.offset && Get16(c[10..12]) == |f.data| && c[12..12 + |f.data|] == f.data
  {
    hide Put32, Get32;
    var c := Covered(f);
    assert c[2..4] == Put16(f.flags) && c[4..8] == Put32(f.sequence) && c[8..10] == Put16(f.offset);
    assert c[10..12] == Put16(|f.data|);
    assert c[12..] == f.data;
    assert c[12..12 + |f.data|] == c[12..];
    GetPut32(f.sequence);
  }

  // ---- Chunks ----

  lemma {:induction false} FeedSplit(s: State, a: seq<Byte>, b: seq<Byte>, core: Core)
    requires LinkValid(s.link)
    ensures FeedAll(s, a + b, core) == FeedAll(FeedAll(s, a, core), b, core)
  {
    hide TakeByte;
    if b == [] {
      assert a + b == a;
    } else {
      var n := |b| - 1;
      FeedSplit(s, a, b[..n], core);
      assert (a + b)[..|a| + n] == a + b[..n];
    }
  }

  /** The bytes of one call of `feed`, and the clock at that call. */
  datatype Chunk = Chunk(data: seq<Byte>, now: Time)

  ghost function FeedChunks(s: State, last: Time, cs: seq<Chunk>, core: Core): (r: State)
    requires LinkValid(s.link)
    decreases |cs|
  {
    if cs == [] then s else FeedChunks(FeedAll(Timed(s, last, cs[0].now), cs[0].data, core), cs[0].now, cs[1..], core)
  }

  ghost predicate NoGap(last: Time, cs: seq<Chunk>)
    decreases |cs|
  {
    cs == [] || (Reading(cs[0].now - last) <= 2_000_000 && NoGap(cs[0].now, cs[1..]))
  }

  ghost function Flat(cs: seq<Chunk>): (b: seq<Byte>) {
    if cs == [] then [] else cs[0].data + Flat(cs[1..])
  }

  /** How the stream is cut into calls makes no difference, as long as no two
      of them are more than two seconds apart on the wrapping clock. */
  lemma {:induction false} ChunksDontMatter(s: State, last: Time, cs: seq<Chunk>, core: Core)
    requires LinkValid(s.link) && NoGap(last, cs)
    ensures FeedChunks(s, last, cs, core) == FeedAll(s, Flat(cs), core)
    decreases |cs|
  {
    if cs != [] {
      var s' := FeedAll(s, cs[0].data, core);
      ChunksDontMatter(s', cs[0].now, cs[1..], core);
      FeedSplit(s, cs[0].data, Flat(cs[1..]), core);
    }
  }

  // ---- Noise ----

  ghost predicate MagicAt(b: seq<Byte>, i: nat) {
    i + MAGIC_SIZE <= |b| && b[i] == M0 && b[i + 1] == M1 && b[i + 2] == M2 && b[i + 3] == M3
  }

  ghost predicate HasMagic(b: seq<Byte>) { exists i: nat :: MagicAt(b, i) }

  /** `r` is a proper beginning of the magic at the end of `b`. */
  ghost predicate Residue(r: seq<Byte>, b: seq<Byte>) {
    |r| < MAGIC_SIZE && |r| <= |b| && Agrees(r) && b[|b| - |r|..] == r
  }

  lemma {:induction false} ResyncIsSuffix(b: seq<Byte>)
    ensures b[|b| - |Resync(b)|..] == Resync(b)
  {
    if b != [] && !Agrees(b) {
      ResyncIsSuffix(b[1..]);
    }
  }

  lemma {:induction false} MagicStays(b: seq<Byte>, n: nat)
    requires n <= |b|
    ensures HasMagic(b[..n]) ==> HasMagic(b)
  {
    if HasMagic(b[..n]) {
      var i: nat :| MagicAt(b[..n], i);
      assert MagicAt(b, i);
    }
  }

  lemma {:induction false} NoiseSwallowed(s: State, noise: seq<Byte>, core: Core)
    requires LinkValid(s.link) && s.frame == [] && !HasMagic(noise)
    ensures var r := FeedAll(s, noise, core); r == s.(frame := r.frame) && Residue(r.frame, noise)
  {
    hide HasMagic, Resync, OnFrame;
    if noise != [] {
      var n := |noise| - 1;
      var init := noise[..n];
      MagicStays(noise, n);
      NoiseSwallowed(s, init, core);
      var was := FeedAll(s, init, core).frame;
      NoiseByte(was, noise);
      ResyncIsSuffix(was + [noise[n]]);
      assert noise[n - |was|..] == was + [noise[n]];
    }
  }

  lemma {:induction false} NoiseByte(was: seq<Byte>, noise: seq<Byte>)
    requires noise != [] && Residue(was, noise[..|noise| - 1]) && !HasMagic(noise)
    ensures |Resync(was + [noise[|noise| - 1]])| < MAGIC_SIZE
  {
    hide HasMagic, Resync;
    var n := |noise| - 1;
    var pushed := was + [noise[n]];
    assert pushed[..|was|] == was;
    assert noise[n - |was|..] == pushed;
    if Agrees(pushed) {
      AgreesShort(noise, |pushed|);
      ResyncShortens(pushed);
    } else {
      MagicOnce(pushed);
    }
  }

  lemma {:induction false} ResyncShortens(b: seq<Byte>)
    ensures |Resync(b)| <= |b|
  {
  }

  /** Without the magic in it, no more than a beginning of it ends the noise. */
  lemma {:induction false} AgreesShort(noise: seq<Byte>, k: nat)
    requires !HasMagic(noise) && 0 < k <= MAGIC_SIZE && k <= |noise| && Agrees(noise[|noise| - k..])
    ensures k < MAGIC_SIZE
  {
    var i := |noise| - k;
    assert !MagicAt(noise, i);
  }

  /** The first byte of the magic occurs in it only once. */
  lemma {:induction false} SkipsToFirst(b: seq<Byte>)
    requires b != [] && b[|b| - 1] == M0 && forall i :: 0 <= i < |b| - 1 ==> b[i] != M0
    ensures Resync(b) == [M0]
  {
    if |b| > 1 {
      assert !Agrees(b);
      SkipsToFirst(b[1..]);
    } else {
      assert b == [M0];
    }
  }

  lemma {:induction false} FirstByteTaken(r: seq<Byte>)
    requires |r| < MAGIC_SIZE && Agrees(r)
    ensures Resync(r + [M0]) == [M0]
  {
    var pushed := r + [M0];
    if r == [] {
      assert pushed == [M0];
    } else {
      assert !Agrees(pushed);
      SkipsToFirst(pushed[1..]);
    }
  }

  /** Behind any residue, a frame's first bytes fill the buffer. */
  lemma {:induction false} FillsUp(s: State, b: seq<Byte>, k: nat, core: Core)
    requires LinkValid(s.link) && |s.frame| < MAGIC_SIZE && Agrees(s.frame) && Whole(b) && 0 < k < |b|
    ensures FeedAll(s, b[..k], core) == s.(frame := b[..k])
  {
    hide OnFrame;
    assert b[..k][..k - 1] == b[..k - 1];
    if k == 1 {
      FirstByteTaken(s.frame);
      assert b[..1] == [M0];
      assert FeedAll(s, b[..0], core) == s;
    } else {
      FillsUp(s, b, k - 1, core);
      assert b[..k - 1] + [b[k - 1]] == b[..k];
      PrefixBegun(b, k);
    }
  }

  lemma {:induction false} PrefixBegun(b: seq<Byte>, k: nat)
    requires Whole(b) && k < |b|
    ensures Begun(b[..k])
  {
    assert k >= HEADER_SIZE ==> b[..k][14..16] == b[14..16];
  }

  /** From an empty buffer, any noise without the magic in it and then a frame:
      the frame is processed, once, and nothing else happens. */
  lemma {:induction false} NoiseThenFrame(s: State, noise: seq<Byte>, b: seq<Byte>, core: Core)
    requires LinkValid(s.link) && s.frame == [] && !HasMagic(noise) && Whole(b)
    ensures FeedAll(s, noise + b, core) == OnFrame(s, b, core)
  {
    NoiseSwallowed(s, noise, core);
    FeedSplit(s, noise, b, core);
    FrameTaken(FeedAll(s, noise, core), b, core);
  }

  lemma {:induction false} FrameTaken(s: State, b: seq<Byte>, core: Core)
    requires LinkValid(s.link) && |s.frame| < MAGIC_SIZE && Agrees(s.frame) && Whole(b)
    ensures FeedAll(s, b, core) == OnFrame(s, b, core)
  {
    hide Process, Intact, Parse;
    var n := |b| - 1;
    FillsUp(s, b, n, core);
    assert b[..n] + [b[n]] == b;
  }

  /** Noise and the frame behind it. */
  datatype Burst = Burst(noise: seq<Byte>, frame: seq<Byte>)

  ghost predicate Clean(u: Burst) { !HasMagic(u.noise) && Whole(u.frame) }

  ghost function BytesOf(us: seq<Burst>): (b: seq<Byte>) {
    if us == [] then []
    else
      var n := |us| - 1;
      BytesOf(us[..n]) + (us[n].noise + us[n].frame)
  }

  ghost predicate AllClean(us: seq<Burst>) { forall i :: 0 <= i < |us| ==> Clean(us[i]) }

  ghost function OnFrames(s: State, us: seq<Burst>, core: Core): (r: State)
    requires LinkValid(s.link) && AllClean(us)
    ensures LinkValid(r.link) && (s.frame == [] ==> r.frame == [])
  {
    if us == [] then s
    else
      var n := |us| - 1;
      assert Clean(us[n]);
      OnFrame(OnFrames(s, us[..n], core), us[n].frame, core)
  }

  /** So every frame of such a stream is processed exactly once and in order. */
  lemma {:induction false} EveryFrameOnce(s: State, us: seq<Burst>, core: Core)
    requires LinkValid(s.link) && s.frame == [] && AllClean(us)
    ensures FeedAll(s, BytesOf(us), core) == OnFrames(s, us, core)
  {
    hide OnFrame;
    if us != [] {
      var n := |us| - 1;
      assert Clean(us[n]);
      EveryFrameOnce(s, us[..n], core);
      FeedSplit(s, BytesOf(us[..n]), us[n].noise + us[n].frame, core);
      NoiseThenFrame(OnFrames(s, us[..n], core), us[n].noise, us[n].frame, core);
    }
  }

  // ---- Gaps ----

  /** Input more than two seconds of true time after the last, and less than a
      wrap, finds no frame begun and no request being put together; any other
      input finds everything as it was. */
  lemma {:induction false} GapExactly(s: State, last: int, t: int)
    requires LinkValid(s.link) && last <= t < last + WRAP
    ensures Timed(s, Reading(last), Reading(t)) ==
      if t - last > 2_000_000 then s.(frame := [], link := s.link.(assembling := false)) else s
  {
    ReadingsDiffer(t, last);
    assert (t - last) % WRAP == t - last;
  }

  /** So behind such a gap a frame is processed, once and with whatever noise in
      front of it, no matter what was in the buffer; and it goes on with nothing
      from before: unless it begins a request itself, it is no part of one. */
  lemma {:induction false} AfterGap(s: State, last: int, t: int, noise: seq<Byte>, b: seq<Byte>, core: Core)
    requires LinkValid(s.link) && last + 2_000_000 < t < last + WRAP && !HasMagic(noise) && Whole(b)
    ensures var clean := s.(frame := [], link := s.link.(assembling := false));
            var cs := [Chunk(noise + b, Reading(t))];
            && FeedChunks(s, Reading(last), cs, core) == OnFrame(clean, b, core)
            && (Intact(b) && Parse(b).flags != FETCH && Parse(b).offset > 0 ==>
                  OnFrame(clean, b, core) == clean)
  {
    hide HasMagic, FeedAll, Intact;
    var clean := s.(frame := [], link := s.link.(assembling := false));
    var cs := [Chunk(noise + b, Reading(t))];
    GapExactly(s, last, t);
    NoiseThenFrame(clean, noise, b, core);
    assert cs[1..] == [];
    assert clean.sent + [] == clean.sent && clean.calls + [] == clean.calls;
  }
}
