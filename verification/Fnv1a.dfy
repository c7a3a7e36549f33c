/** The FNV-1a checksum that tells a torn camera frame from a whole one: each step is a bijection
    on the 32-bit state, so a change confined to one byte can never cancel out. */
module Fnv1a {

  const OFFSET_BASIS: bv32 := 2166136261

  type Buffer = seq<bv8>

  function Mix(h: bv32, b: bv8): bv32 {
    h ^ (b as bv32)
  }

  /** Multiplication by the prime, modulo 2^32. */
  function Times(h: bv32): bv32 {
    h * 16777619
  }

  /** Multiplication by the inverse of the prime. */
  function Untimes(h: bv32): bv32 {
    h * 899433627
  }

  function Step(h: bv32, b: bv8): bv32 {
    Times(Mix(h, b))
  }

  function Unstep(h: bv32, b: bv8): bv32 {
    Mix(Untimes(h), b)
  }

  function Fold(h: bv32, data: Buffer): bv32 {
    if data == [] then h else Step(Fold(h, data[..|data| - 1]), data[|data| - 1])
  }

  lemma FoldNext(h: bv32, data: Buffer, i: nat)
    requires i < |data|
    ensures Fold(h, data[..i + 1]) == Step(Fold(h, data[..i]), data[i])
  {
    assert data[..i + 1][..i] == data[..i];
  }

  /** The loop of the checksum. */
  method Checksum(data: Buffer) returns (hash: bv32)
    ensures hash == Fold(OFFSET_BASIS, data)
  {
    hash := OFFSET_BASIS;
    for i := 0 to |data|
      invariant hash == Fold(OFFSET_BASIS, data[..i])
    {
      FoldNext(OFFSET_BASIS, data, i);
      hash := Mix(hash, data[i]);
      hash := Times(hash);
    }
    assert data[..|data|] == data;
  }

  lemma TimesInverse(x: bv32)
    ensures Untimes(Times(x)) == x && Times(Untimes(x)) == x
  {
    assert Untimes(x * 16777619) == x;
    assert Times(x * 899433627) == x;
  }

  lemma MixTwice(x: bv32, b: bv8)
    ensures Mix(Mix(x, b), b) == x
  {
    assert Mix(x ^ (b as bv32), b) == x;
  }

  /** A step can be undone, and every state is reached from exactly one state. */
  lemma StepIsBijective(h: bv32, b: bv8)
    ensures Unstep(Step(h, b), b) == h && Step(Unstep(h, b), b) == h
  {
    TimesInverse(Mix(h, b));
    MixTwice(h, b);
    MixTwice(Untimes(h), b);
    TimesInverse(h);
  }

  /** Different bytes take the same state to different states. */
  lemma StepSeparates(h: bv32, a: bv8, b: bv8)
    ensures Step(h, a) == Step(h, b) <==> a == b
  {
    TimesInverse(Mix(h, a));
    TimesInverse(Mix(h, b));
  }

  /** From different states the same bytes lead to different states. */
  lemma {:induction false} FoldSeparatesStates(h: bv32, k: bv32, data: Buffer)
    ensures Fold(h, data) == Fold(k, data) <==> h == k
  {
    if data != [] {
      var n := |data| - 1;
      FoldSeparatesStates(h, k, data[..n]);
      StepIsBijective(Fold(h, data[..n]), data[n]);
      StepIsBijective(Fold(k, data[..n]), data[n]);
    }
  }

  lemma {:induction false} FoldAppend(h: bv32, a: Buffer, b: Buffer)
    ensures Fold(h, a + b) == Fold(Fold(h, a), b)
    decreases |b|
  {
    if b == [] {
      assert a + b == a;
    } else {
      var n := |b| - 1;
      assert (a + b)[..|a| + n] == a + b[..n];
      FoldAppend(h, a, b[..n]);
    }
  }

  /** The two buffers have one length and differ nowhere outside `[from, to)`. */
  ghost predicate DifferOnlyIn(x: Buffer, y: Buffer, from: nat, to: nat) {
    |x| == |y| && from <= to <= |x| && x[..from] == y[..from] && x[to..] == y[to..]
  }

  /** Only the bytes that differ decide whether the checksums agree. */
  lemma Localize(h: bv32, x: Buffer, y: Buffer, from: nat, to: nat)
    requires DifferOnlyIn(x, y, from, to)
    ensures var s := Fold(h, x[..from]);
            Fold(h, x) == Fold(h, y) <==> Fold(s, x[from..to]) == Fold(s, y[from..to])
  {
    var s := Fold(h, x[..from]);
    assert x == x[..from] + x[from..to] + x[to..] && y == x[..from] + y[from..to] + x[to..];
    FoldAppend(h, x[..from], x[from..to]);
    FoldAppend(h, x[..from], y[from..to]);
    FoldAppend(h, x[..from] + x[from..to], x[to..]);
    FoldAppend(h, x[..from] + y[from..to], x[to..]);
    FoldSeparatesStates(Fold(s, x[from..to]), Fold(s, y[from..to]), x[to..]);
  }

  lemma FoldOne(h: bv32, b: bv8)
    ensures Fold(h, [b]) == Step(h, b)
  {
    assert [b][..0] == [];
  }

  lemma FoldTwo(h: bv32, a: bv8, b: bv8)
    ensures Fold(h, [a, b]) == Step(Step(h, a), b)
  {
    assert [a, b][..1] == [a];
    FoldOne(h, a);
  }

  /** The published values of the checksum of nothing, of "a" and of "b". */
  lemma KnownValues()
    ensures Fold(OFFSET_BASIS, []) == 0x811C_9DC5
    ensures Fold(OFFSET_BASIS, [0x61]) == 0xE40C_292C && Fold(OFFSET_BASIS, [0x62]) == 0xE70C_2DE5
  {
    FoldOne(OFFSET_BASIS, 0x61);
    FoldOne(OFFSET_BASIS, 0x62);
    assert Mix(OFFSET_BASIS, 0x61) == 0x811C_9DA4 && Times(0x811C_9DA4) == 0xE40C_292C;
    assert Mix(OFFSET_BASIS, 0x62) == 0x811C_9DA7 && Times(0x811C_9DA7) == 0xE70C_2DE5;
  }

  // ------------------------------------------------------------------ up to three bytes

  function Top(x: bv32): bv32 {
    x & 0xFFFF_FF00
  }

  function Low(x: bv32): bv32 {
    x & 0xFF
  }

  /** The states differ at most in the byte that the next input byte is mixed into. */
  predicate SameTop(x: bv32, y: bv32) {
    Top(x) == Top(y)
  }

  function Diff(x: bv32, y: bv32): bv32 {
    x - y
  }

  /** Less than 256 apart, either way round. */
  predicate Close(d: bv32) {
    d <= 255 || d >= 0xFFFF_FF01
  }

  function Plus(x: bv32, y: bv32): bv32 {
    x + y
  }

  lemma PlusDiff(x: bv32, y: bv32)
    ensures Plus(x, Diff(y, x)) == y
  {
    assert Plus(x, y - x) == y;
  }

  lemma TopAndLow(x: bv32)
    ensures Plus(Top(x), Low(x)) == x
  {
    assert Plus(x & 0xFFFF_FF00, x & 0xFF) == x;
  }

  lemma DiffOfSums(t: bv32, a: bv32, b: bv32)
    ensures Diff(Plus(t, a), Plus(t, b)) == Diff(a, b)
  {
    assert Diff(t + a, t + b) == a - b;
  }

  /** Between 1 and 255. */
  predicate Small(d: bv32) {
    0 < d <= 255
  }

  lemma DiffOfBytes(a: bv32, b: bv32)
    requires a <= 255 && b <= 255
    ensures a - b <= 255 || a - b >= 0xFFFF_FF01
    ensures a != b ==> 0 < a - b <= 255 || 0 < b - a <= 255
  {}

  predicate IsByte(a: bv32) {
    a <= 255
  }

  lemma LowIsByte(x: bv32)
    ensures IsByte(Low(x))
  {
    assert IsByte(x & 0xFF);
  }

  lemma DiffOfLows(a: bv32, b: bv32)
    requires IsByte(a) && IsByte(b)
    ensures Close(Diff(a, b))
    ensures a != b ==> Small(Diff(a, b)) || Small(Diff(b, a))
  {
    DiffOfBytes(a, b);
  }

  /** States with the same top differ by their low bytes. */
  lemma SameTopDiff(x: bv32, y: bv32)
    ensures SameTop(x, y) ==> Diff(x, y) == Diff(Low(x), Low(y))
  {
    TopAndLow(x);
    TopAndLow(y);
    DiffOfSums(Top(x), Low(x), Low(y));
  }

  lemma SameTopIsClose(x: bv32, y: bv32)
    ensures SameTop(x, y) ==> Close(Diff(x, y))
  {
    SameTopDiff(x, y);
    LowIsByte(x);
    LowIsByte(y);
    DiffOfLows(Low(x), Low(y));
  }

  lemma LowsDiffer(x: bv32, y: bv32)
    requires SameTop(x, y) && x != y
    ensures Low(x) != Low(y)
  {
    TopAndLow(x);
    TopAndLow(y);
  }

  predicate Apart(d: bv32, e: bv32) {
    Small(d) || Small(e)
  }

  lemma LowsApart(a: bv32, b: bv32)
    requires IsByte(a) && IsByte(b) && a != b
    ensures Apart(Diff(a, b), Diff(b, a))
  {
    DiffOfLows(a, b);
  }

  /** Different states with the same top: one lies less than 256 above the other. */
  lemma OneIsAbove(x: bv32, y: bv32)
    requires SameTop(x, y) && x != y
    ensures Apart(Diff(x, y), Diff(y, x))
  {
    LowsDiffer(x, y);
    LowIsByte(x);
    LowIsByte(y);
    LowsApart(Low(x), Low(y));
    SameTopDiff(x, y);
    SameTopDiff(y, x);
  }

  lemma TimesDiff(x: bv32, y: bv32)
    ensures Diff(Times(x), Times(y)) == Times(Diff(x, y))
  {
    assert Diff(x * 16777619, y * 16777619) == Times(x - y);
  }

  lemma OneProduct(d: bv32)
    requires 0 < d <= 255
    ensures 255 < d * 16777619 < 0xFFFF_FF01
  {}

  lemma TimesSpreads(d: bv32)
    requires Small(d)
    ensures !Close(Times(d))
  {
    OneProduct(d);
    assert Times(d) == d * 16777619;
  }

  /** One multiplication takes a state out of reach of the next byte. */
  lemma OneRoundUp(x: bv32, y: bv32)
    requires Small(Diff(x, y))
    ensures !SameTop(Times(x), Times(y))
  {
    SameTopIsClose(Times(x), Times(y));
    TimesDiff(x, y);
    TimesSpreads(Diff(x, y));
  }

  /** At most the sum of two low bytes, either way round. */
  predicate Nudge(e: bv32) {
    e <= 510 || e >= 0xFFFF_FE02
  }

  /** Changing the low bytes of two states nudges their difference. */
  lemma LowBytesNudge(u: bv32, v: bv32, x: bv32, y: bv32)
    ensures SameTop(x, u) && SameTop(y, v) ==> Nudge(Diff(Diff(x, y), Diff(u, v)))
  {
    SameTopIsClose(x, u);
    SameTopIsClose(y, v);
    DiffOfDiffs(x, y, u, v);
    CloseDiff(Diff(x, u), Diff(y, v));
  }

  lemma DiffOfDiffs(x: bv32, y: bv32, u: bv32, v: bv32)
    ensures Diff(Diff(x, y), Diff(u, v)) == Diff(Diff(x, u), Diff(y, v))
  {
    assert Diff(x - y, u - v) == Diff(x - u, y - v);
  }

  lemma CloseDiff(d: bv32, e: bv32)
    ensures Close(d) && Close(e) ==> Nudge(Diff(d, e))
  {}

  lemma TwoProducts(d: bv32, e: bv32)
    requires 0 < d <= 255 && (e <= 510 || e >= 0xFFFF_FE02)
    ensures 255 < (d * 16777619 + e) * 16777619 < 0xFFFF_FF01
  {}

  lemma TimesTwiceSpreads(d: bv32, e: bv32)
    requires Small(d) && Nudge(e)
    ensures !Close(Times(Plus(Times(d), e)))
  {
    TwoProducts(d, e);
    assert Plus(d * 16777619, e) == d * 16777619 + e;
    assert Times(d * 16777619 + e) == (d * 16777619 + e) * 16777619;
  }

  /** A byte mixed in between the multiplications does not bring the states back together. */
  lemma TwoRoundsUp(x: bv32, y: bv32, x2: bv32, y2: bv32)
    requires Small(Diff(x, y)) && SameTop(x2, Times(x)) && SameTop(y2, Times(y))
    ensures !SameTop(Times(x2), Times(y2))
  {
    TimesDiff(x, y);
    var d, w := Diff(x, y), Diff(x2, y2);
    LowBytesNudge(Times(x), Times(y), x2, y2);
    PlusDiff(Times(d), w);
    TimesTwiceSpreads(d, Diff(w, Times(d)));
    TimesDiff(x2, y2);
    SameTopIsClose(Times(x2), Times(y2));
  }

  /** Different states with the same top stay apart over one multiplication, and over two with a
      byte mixed in between. */
  lemma RoundsSeparate(x: bv32, y: bv32, x2: bv32, y2: bv32)
    requires SameTop(x, y) && x != y && SameTop(x2, Times(x)) && SameTop(y2, Times(y))
    ensures !SameTop(Times(x), Times(y)) && !SameTop(Times(x2), Times(y2))
  {
    OneIsAbove(x, y);
    if Small(Diff(x, y)) {
      OneRoundUp(x, y);
      TwoRoundsUp(x, y, x2, y2);
    } else {
      OneRoundUp(y, x);
      TwoRoundsUp(y, x, y2, x2);
    }
  }

  // ------------------------------------------------------------------ tears

  lemma MixKeepsTop(u: bv32, b: bv8)
    ensures SameTop(Mix(u, b), u)
  {
    assert Top(u ^ (b as bv32)) == Top(u);
  }

  lemma SameTopTrans(x: bv32, y: bv32, z: bv32)
    ensures SameTop(x, y) && SameTop(y, z) ==> SameTop(x, z)
    ensures SameTop(x, y) ==> SameTop(y, x)
  {}

  lemma MixSeparates(u: bv32, a: bv8, b: bv8)
    ensures Mix(u, a) == Mix(u, b) ==> a == b
  {}

  /** The states behind two different first bytes. */
  lemma FirstDiffers(s: bv32, a: bv8, b: bv8)
    requires a != b
    ensures SameTop(Mix(s, a), Mix(s, b)) && Mix(s, a) != Mix(s, b)
  {
    MixKeepsTop(s, a);
    MixKeepsTop(s, b);
    SameTopTrans(Mix(s, b), s, s);
    SameTopTrans(Mix(s, a), s, Mix(s, b));
    MixSeparates(s, a, b);
  }

  /** States with different tops stay apart over one more byte. */
  lemma StaysApart(u: bv32, v: bv32, a: bv8, b: bv8)
    requires !SameTop(u, v)
    ensures Step(u, a) != Step(v, b)
  {
    if Mix(u, a) == Mix(v, b) {
      MixKeepsTop(u, a);
      MixKeepsTop(v, b);
      SameTopTrans(Mix(u, a), u, u);
      SameTopTrans(u, Mix(u, a), v);
    }
    TimesInverse(Mix(u, a));
    TimesInverse(Mix(v, b));
  }

  lemma TwoBytes(s: bv32, a: bv8, a1: bv8, b: bv8, b1: bv8)
    requires a != b
    ensures Step(Step(s, a), a1) != Step(Step(s, b), b1)
  {
    FirstDiffers(s, a, b);
    RoundsSeparate(Mix(s, a), Mix(s, b), Step(s, a), Step(s, b));
    StaysApart(Step(s, a), Step(s, b), a1, b1);
  }

  lemma ThreeBytes(s: bv32, a: bv8, a1: bv8, a2: bv8, b: bv8, b1: bv8, b2: bv8)
    requires a != b
    ensures Step(Step(Step(s, a), a1), a2) != Step(Step(Step(s, b), b1), b2)
  {
    FirstDiffers(s, a, b);
    MixKeepsTop(Step(s, a), a1);
    MixKeepsTop(Step(s, b), b1);
    RoundsSeparate(Mix(s, a), Mix(s, b), Mix(Step(s, a), a1), Mix(Step(s, b), b1));
    StaysApart(Step(Step(s, a), a1), Step(Step(s, b), b1), a2, b2);
  }

  lemma FoldThree(h: bv32, a: bv8, b: bv8, c: bv8)
    ensures Fold(h, [a, b, c]) == Step(Step(Step(h, a), b), c)
  {
    assert [a, b, c][..2] == [a, b];
    FoldTwo(h, a, b);
  }

  /** From one state, different blocks of one length up to three bytes lead to different states. */
  lemma {:induction false} ShortBlock(s: bv32, x: Buffer, y: Buffer)
    requires |x| == |y| <= 3
    ensures Fold(s, x) == Fold(s, y) <==> x == y
    decreases |x|
  {
    if x == [] {
    } else if x[0] == y[0] {
      assert x == [x[0]] + x[1..] && y == [x[0]] + y[1..];
      FoldAppend(s, [x[0]], x[1..]);
      FoldAppend(s, [x[0]], y[1..]);
      ShortBlock(Fold(s, [x[0]]), x[1..], y[1..]);
    } else if |x| == 1 {
      assert x == [x[0]] && y == [y[0]];
      FoldOne(s, x[0]);
      FoldOne(s, y[0]);
      StepSeparates(s, x[0], y[0]);
    } else if |x| == 2 {
      assert x == [x[0], x[1]] && y == [y[0], y[1]];
      FoldTwo(s, x[0], x[1]);
      FoldTwo(s, y[0], y[1]);
      TwoBytes(s, x[0], x[1], y[0], y[1]);
    } else {
      assert x == [x[0], x[1], x[2]] && y == [y[0], y[1], y[2]];
      FoldThree(s, x[0], x[1], x[2]);
      FoldThree(s, y[0], y[1], y[2]);
      ThreeBytes(s, x[0], x[1], x[2], y[0], y[1], y[2]);
    }
  }

  /** A tear within three neighbouring bytes always shows in the checksum. */
  lemma ShortTearShowsIff(x: Buffer, y: Buffer, from: nat, to: nat)
    requires DifferOnlyIn(x, y, from, to) && to - from <= 3
    ensures Fold(OFFSET_BASIS, x) == Fold(OFFSET_BASIS, y) <==> x == y
  {
    Localize(OFFSET_BASIS, x, y, from, to);
    ShortBlock(Fold(OFFSET_BASIS, x[..from]), x[from..to], y[from..to]);
    assert x == x[..from] + x[from..to] + x[to..] && y == x[..from] + y[from..to] + x[to..];
  }

  /** Buffers that differ in exactly one byte have different checksums, wherever that byte is. */
  lemma OneByteTearShows(x: Buffer, y: Buffer, i: nat)
    requires |x| == |y| && i < |x| && x[i] != y[i]
    requires forall j :: 0 <= j < |x| && j != i ==> x[j] == y[j]
    ensures Fold(OFFSET_BASIS, x) != Fold(OFFSET_BASIS, y)
  {
    ShortTearShowsIff(x, y, i, i + 1);
  }

  lemma FoldFour(h: bv32, a: bv8, b: bv8, c: bv8, d: bv8)
    ensures Fold(h, [a, b, c, d]) == Step(Step(Step(Step(h, a), b), c), d)
  {
    assert [a, b, c, d][..3] == [a, b, c];
    FoldThree(h, a, b, c);
  }

  /** Four neighbouring bytes are too many: here is a tear that the checksum misses. */
  lemma FourByteTearCanHide()
    ensures var x, y: Buffer := [0x00, 0xE6, 0x05, 0x00], [0x06, 0x70, 0x80, 0x6B];
            x != y && Fold(OFFSET_BASIS, x) == Fold(OFFSET_BASIS, y)
  {
    FoldFour(OFFSET_BASIS, 0x00, 0xE6, 0x05, 0x00);
    FoldFour(OFFSET_BASIS, 0x06, 0x70, 0x80, 0x6B);
    var x, y: Buffer := [0x00, 0xE6, 0x05, 0x00], [0x06, 0x70, 0x80, 0x6B];
    assert x[0] != y[0];
  }
}
