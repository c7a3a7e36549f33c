/** The assembled BitScrambler file: header, instructions of 36 bytes each, lookup table words. */
module BitProgram {
  import opened Arithmetic
  import opened Basics
  import opened BitScrambler
  import opened BitStream
  import opened LittleEndian

  /** The low byte comes first. */
  lemma PutStep(x: Byte, r: nat, k: nat)
    ensures PutLE(x + 256 * r, k + 1) == [x] + PutLE(r, k)
  {
    assert (x + 256 * r) % 256 == x && (x + 256 * r) / 256 == r;
  }

  // ------------------------------------------------------------------ lookup table

  /** The first `n` table entries, of `k` bytes each, one behind the other. */
  function FirstCells(lut: seq<int>, k: nat, n: nat): seq<Byte>
    requires n <= |lut|
  {
    if n == 0 then [] else FirstCells(lut, k, n - 1) + PutLE(lut[n - 1], k)
  }

  function Cells(lut: seq<int>, k: nat): seq<Byte> { FirstCells(lut, k, |lut|) }

  lemma {:induction false} CellsLength(lut: seq<int>, k: nat, n: nat)
    requires n <= |lut|
    ensures |FirstCells(lut, k, n)| == n * k
  {
    if n > 0 {
      CellsLength(lut, k, n - 1);
      assert n * k == (n - 1) * k + k;
    }
  }

  lemma LastCell(lut: seq<int>, k: nat, n: nat, at: nat)
    requires 0 < n <= |lut| && at == (n - 1) * k
    ensures at + k == |FirstCells(lut, k, n)|
    ensures GetLE(FirstCells(lut, k, n)[at..at + k]) == lut[n - 1] % Pow256(k)
  {
    CellsLength(lut, k, n - 1);
    SliceLast(FirstCells(lut, k, n - 1), PutLE(lut[n - 1], k));
    GetOfPut(lut[n - 1], k);
  }

  /** Entry `j` can be read at its place, modulo its width. */
  lemma {:induction false} CellAt(lut: seq<int>, k: nat, n: nat, j: nat)
    requires j < n <= |lut|
    ensures j * k + k <= |FirstCells(lut, k, n)|
    ensures GetLE(FirstCells(lut, k, n)[j * k..j * k + k]) == lut[j] % Pow256(k)
  {
    if j < n - 1 {
      CellAt(lut, k, n - 1, j);
      SliceFront(FirstCells(lut, k, n - 1), PutLE(lut[n - 1], k), j * k, j * k + k);
    } else {
      LastCell(lut, k, n, j * k);
    }
  }

  lemma SliceFront(front: seq<Byte>, last: seq<Byte>, i: nat, j: nat)
    requires i <= j <= |front|
    ensures (front + last)[i..j] == front[i..j]
  {}

  lemma SliceLast(front: seq<Byte>, last: seq<Byte>)
    ensures (front + last)[|front|..|front| + |last|] == last
  {}

  method PadLut(lut: seq<int>, per: nat) returns (padded: seq<int>)
    requires per > 0
    ensures |padded| % per == 0 && |lut| <= |padded| < |lut| + per
    ensures padded[..|lut|] == lut && forall j :: |lut| <= j < |padded| ==> padded[j] == 0
  {
    padded := lut;
    ghost var end := (|lut| + per - 1) / per * per;
    assert end >= |lut| && end % per == 0 && end < |lut| + per by {
      var t := |lut| + per - 1;
      assert t == t / per * per + t % per;
      Arithmetic.Multiple(t / per, per);
    }
    while |padded| % per != 0
      invariant |lut| <= |padded| <= end
      invariant padded[..|lut|] == lut && forall j :: |lut| <= j < |padded| ==> padded[j] == 0
      decreases end - |padded|
    {
      padded := padded + [0];
    }
  }

  lemma FourBytes(a: Byte, b: Byte, c: Byte, d: Byte)
    ensures PutLE(a + b * 0x100 + c * 0x10000 + d * 0x1000000, 4) == [a, b, c, d]
  {
    var r1, r2 := c + 256 * d, b + 256 * (c + 256 * d);
    assert PutLE(d, 1) == [d] by { PutStep(d, 0, 0); }
    assert PutLE(r1, 2) == [c, d] by { PutStep(c, d, 1); }
    assert PutLE(r2, 3) == [b, c, d] by { PutStep(b, r1, 2); }
    assert PutLE(a + 256 * r2, 4) == [a, b, c, d] by { PutStep(a, r2, 3); }
    assert a + b * 0x100 + c * 0x10000 + d * 0x1000000 == a + 256 * r2;
  }

  lemma TwoHalves(a: nat, b: nat)
    requires a < 0x10000 && b < 0x10000
    ensures PutLE(a + b * 0x10000, 4) == PutLE(a, 2) + PutLE(b, 2)
  {
    var lo, hi := a % 256, a / 256;
    assert a + b * 0x10000 == lo + 256 * (hi + 256 * b);
    PutStep(lo, hi + 256 * b, 3);
    PutStep(hi, b, 2);
    PutStep(lo, hi, 1);
    PutStep(hi, 0, 0);
  }

  lemma {:induction false} PutModulo(v: int, k: nat)
    ensures PutLE(v % Pow256(k), k) == PutLE(v, k)
    decreases k
  {
    if k > 0 {
      ByteMod(v, Pow256(k - 1));
      PutStep(v % 256, v / 256 % Pow256(k - 1), k - 1);
      PutModulo(v / 256, k - 1);
    }
  }

  /** The four 8-bit entries from `i` on as one word, the first in its low bits. */
  function ByteWord(lut: seq<int>, i: nat): nat
    requires i + 4 <= |lut|
  {
    lut[i] % 0x100 + lut[i + 1] % 0x100 * 0x100 + lut[i + 2] % 0x100 * 0x10000 + lut[i + 3] % 0x100 * 0x1000000
  }

  method PackBytes(lut: seq<int>) returns (words: seq<int>)
    requires |lut| % 4 == 0
    ensures |words| * 4 == |lut| && Cells(words, 4) == Cells(lut, 1)
  {
    words := [];
    var i := 0;
    while i < |lut|
      invariant 0 <= i <= |lut| && i == 4 * |words|
      invariant forall j :: 0 <= j < |words| ==> words[j] == ByteWord(lut, 4 * j)
    {
      words := words + [ByteWord(lut, i)];
      i := i + 4;
    }
    ByteWordsAre(lut, words, |words|);
  }

  lemma {:induction false} ByteWordsAre(lut: seq<int>, words: seq<int>, n: nat)
    requires n <= |words| && 4 * |words| <= |lut|
    requires forall j :: 0 <= j < |words| ==> words[j] == ByteWord(lut, 4 * j)
    ensures FirstCells(words, 4, n) == FirstCells(lut, 1, 4 * n)
  {
    if n > 0 {
      var i := 4 * (n - 1);
      ByteWordsAre(lut, words, n - 1);
      ByteWordBytes(lut, i);
      Four(lut, i);
    }
  }

  /** Two 16-bit entries as one word. */
  function HalfWord(lut: seq<int>, i: nat): nat
    requires i + 2 <= |lut|
  {
    lut[i] % 0x10000 + lut[i + 1] % 0x10000 * 0x10000
  }

  method PackHalves(lut: seq<int>) returns (words: seq<int>)
    requires |lut| % 2 == 0
    ensures |words| * 2 == |lut| && Cells(words, 4) == Cells(lut, 2)
  {
    words := [];
    var i := 0;
    while i < |lut|
      invariant 0 <= i <= |lut| && i == 2 * |words|
      invariant forall j :: 0 <= j < |words| ==> words[j] == HalfWord(lut, 2 * j)
    {
      words := words + [HalfWord(lut, i)];
      i := i + 2;
    }
    HalfWordsAre(lut, words, |words|);
  }

  lemma {:induction false} HalfWordsAre(lut: seq<int>, words: seq<int>, n: nat)
    requires n <= |words| && 2 * |words| <= |lut|
    requires forall j :: 0 <= j < |words| ==> words[j] == HalfWord(lut, 2 * j)
    ensures FirstCells(words, 4, n) == FirstCells(lut, 2, 2 * n)
  {
    if n > 0 {
      var i := 2 * (n - 1);
      HalfWordsAre(lut, words, n - 1);
      HalfWordBytes(lut, i);
      Two(lut, i);
    }
  }

  /** The table as 32-bit words, padded with zero entries. */
  method PackLut(lut: seq<int>, width: nat) returns (words: seq<int>, padded: seq<int>)
    requires width in {8, 16, 32}
    ensures |lut| <= |padded| < |lut| + 32 / width && |words| * (32 / width) == |padded|
    ensures padded[..|lut|] == lut && forall j :: |lut| <= j < |padded| ==> padded[j] == 0
    ensures Cells(words, 4) == Cells(padded, width / 8)
  {
    if width == 8 {
      padded := PadLut(lut, 4);
      words := PackBytes(padded);
    } else if width == 16 {
      padded := PadLut(lut, 2);
      words := PackHalves(padded);
    } else {
      words, padded := lut, lut;
    }
  }

  lemma OneByte(v: int)
    ensures PutLE(v, 1) == [v % 0x100]
  {
    assert PutLE(v, 1) == [v % 0x100] + PutLE(v / 256, 0);
  }

  lemma Four(lut: seq<int>, i: nat)
    requires i + 4 <= |lut|
    ensures FirstCells(lut, 1, i + 4) == FirstCells(lut, 1, i) +
            [lut[i] % 0x100, lut[i + 1] % 0x100, lut[i + 2] % 0x100, lut[i + 3] % 0x100]
  {
    OneByte(lut[i]);
    OneByte(lut[i + 1]);
    OneByte(lut[i + 2]);
    OneByte(lut[i + 3]);
    assert FirstCells(lut, 1, i + 1) == FirstCells(lut, 1, i) + PutLE(lut[i], 1);
    assert FirstCells(lut, 1, i + 2) == FirstCells(lut, 1, i + 1) + PutLE(lut[i + 1], 1);
    assert FirstCells(lut, 1, i + 3) == FirstCells(lut, 1, i + 2) + PutLE(lut[i + 2], 1);
    assert FirstCells(lut, 1, i + 4) == FirstCells(lut, 1, i + 3) + PutLE(lut[i + 3], 1);
  }

  lemma Two(lut: seq<int>, i: nat)
    requires i + 2 <= |lut|
    ensures FirstCells(lut, 2, i + 2) == FirstCells(lut, 2, i) + (PutLE(lut[i], 2) + PutLE(lut[i + 1], 2))
  {
    Assoc(FirstCells(lut, 2, i), PutLE(lut[i], 2), PutLE(lut[i + 1], 2));
  }

  lemma HalfWordBytes(lut: seq<int>, i: nat)
    requires i + 2 <= |lut|
    ensures PutLE(HalfWord(lut, i), 4) == PutLE(lut[i], 2) + PutLE(lut[i + 1], 2)
  {
    TwoHalves(lut[i] % 0x10000, lut[i + 1] % 0x10000);
    assert Pow256(2) == 0x10000;
    PutModulo(lut[i], 2);
    PutModulo(lut[i + 1], 2);
  }

  lemma ByteWordBytes(lut: seq<int>, i: nat)
    requires i + 4 <= |lut|
    ensures PutLE(ByteWord(lut, i), 4) == [lut[i] % 0x100, lut[i + 1] % 0x100, lut[i + 2] % 0x100, lut[i + 3] % 0x100]
  {
    FourBytes(lut[i] % 0x100, lut[i + 1] % 0x100, lut[i + 2] % 0x100, lut[i + 3] % 0x100);
  }

  // ------------------------------------------------------------------ the file

  const BINARY_VER: Byte := 1
  const HW_REV: Byte := 0
  const HEADER_WORDS: Byte := 3

  /** Settings from the meta-instructions. */
  datatype Meta = Meta(lutWidth: nat, prefetch: nat, trailingBytes: nat, eofOn: nat)

  /** Settings as the assembler limits them. */
  predicate MetaOk(m: Meta) {
    m.lutWidth in {8, 16, 32} && m.prefetch < 2 && m.trailingBytes <= 8192 && m.eofOn < 2
  }

  function LutWidthValue(width: nat): Byte { if width == 8 then 0 else if width == 16 then 1 else 2 }

  /** The 12 bytes of the header; a 16-bit field that is too large is an error of the packer. */
  function Header(insts: nat, words: nat, m: Meta): (r: Result<seq<Byte>>)
    requires insts <= 8 && MetaOk(m)
    ensures r.Ok? <==> words < 0x10000 && m.trailingBytes * 8 < 0x10000
    ensures r.Ok? ==> |r.value| == 12
  {
    if words >= 0x10000 || m.trailingBytes * 8 >= 0x10000 then Err(FieldRange)
    else
      Ok([BINARY_VER, HW_REV, HEADER_WORDS, insts] + PutLE(words, 2) + [LutWidthValue(m.lutWidth), m.prefetch]
         + PutLE(m.trailingBytes * 8, 2) + [m.eofOn, 0])
  }

  /** 36 bytes that hold an instruction with some bits that serve all its inputs. */
  ghost predicate Encodes(code: seq<Byte>, inst: Inst) {
    |code| == 36 &&
    exists bits :: LeastForInst(bits, inst) && BitsOf(code) == FieldsBits(InstFields(WordOf(inst, bits)))
  }

  /** No bits serve all inputs of the instruction. */
  ghost predicate Unservable(inst: Inst) { forall b :: !ServesInst(b, inst) }

  /** Codes of 36 bytes each are found at multiples of 36. */
  lemma {:induction false} ConcatAt(codes: seq<seq<Byte>>, k: nat)
    requires forall i :: 0 <= i < |codes| ==> |codes[i]| == 36
    requires k <= |codes|
    ensures |Concat(codes)| == 36 * |codes|
    ensures k < |codes| ==> Concat(codes)[36 * k..36 * k + 36] == codes[k]
  {
    if codes != [] {
      var n := |codes| - 1;
      ConcatAt(codes[..n], if k < n then k else n);
      if k < n {
        SliceFront(Concat(codes[..n]), codes[n], 36 * k, 36 * k + 36);
      } else if k == n {
        SliceLast(Concat(codes[..n]), codes[n]);
      }
    }
  }

  method EncodeOne(inst: Inst) returns (res: Result<seq<Byte>>)
    requires InstOk(inst)
    ensures res.Ok? ==> Encodes(res.value, inst)
    ensures res.Ok? || res == Err(InputsClash)
    ensures res == Err(InputsClash) <==> Unservable(inst)
  {
    var bits;
    res, bits := EncodeInst(inst);
  }

  ghost predicate Encoded(codes: seq<seq<Byte>>, insts: seq<Inst>) {
    |codes| <= |insts|
    && forall k :: 0 <= k < |codes| ==> Encodes(codes[k], insts[k]) && !Unservable(insts[k])
  }

  lemma EncodedNext(codes: seq<seq<Byte>>, insts: seq<Inst>, code: seq<Byte>)
    requires Encoded(codes, insts) && |codes| < |insts|
    requires Encodes(code, insts[|codes|]) && !Unservable(insts[|codes|])
    ensures Encoded(codes + [code], insts)
  {
    var all := codes + [code];
    forall k | 0 <= k < |all| ensures Encodes(all[k], insts[k]) && !Unservable(insts[k]) {
      if k < |codes| { assert all[k] == codes[k]; } else { assert all[k] == code; }
    }
  }

  /** The codes of all instructions, or the error of the first whose inputs clash. */
  method EncodeAll(insts: seq<Inst>) returns (ok: bool, codes: seq<seq<Byte>>)
    requires forall i :: 0 <= i < |insts| ==> InstOk(insts[i])
    ensures ok ==> |codes| == |insts| && Encoded(codes, insts)
    ensures !ok ==> |codes| < |insts| && Unservable(insts[|codes|])
  {
    codes := [];
    while |codes| < |insts|
      invariant Encoded(codes, insts)
      decreases |insts| - |codes|
    {
      var one := EncodeOne(insts[|codes|]);
      if !one.Ok? { return false, codes; }
      EncodedNext(codes, insts, one.value);
      codes := codes + [one.value];
    }
    ok := true;
  }

  /** `insts_to_binary`.  A program assembles exactly when it has at most eight instructions, its
      header fields fit, and the inputs of every instruction can be served at once.  The file is the
      header, the instructions of 36 bytes each, and the table, padded with zero entries. */
  method InstsToBinary(insts: seq<Inst>, m: Meta, lut: seq<int>)
    returns (res: Result<seq<Byte>>, codes: seq<seq<Byte>>, words: seq<int>, padded: seq<int>)
    requires MetaOk(m) && forall i :: 0 <= i < |insts| ==> InstOk(insts[i])
    ensures |lut| <= |padded| < |lut| + 32 / m.lutWidth && padded[..|lut|] == lut
    ensures forall j :: |lut| <= j < |padded| ==> padded[j] == 0
    ensures |words| * (32 / m.lutWidth) == |padded| && Cells(words, 4) == Cells(padded, m.lutWidth / 8)
    ensures res == Err(TooManyInstructions) <==> |insts| > 8
    ensures res == Err(FieldRange) <==> |insts| <= 8 && (|words| >= 0x10000 || m.trailingBytes == 8192)
    ensures res == Err(InputsClash) <==>
              && |insts| <= 8 && |words| < 0x10000 && m.trailingBytes < 8192
              && exists k :: 0 <= k < |insts| && Unservable(insts[k])
    ensures res != Err(InternalSize)
    ensures res.Ok? ==>
              && |insts| <= 8 && Header(|insts|, |words|, m).Ok?
              && |codes| == |insts| && (forall k :: 0 <= k < |insts| ==> Encodes(codes[k], insts[k]))
              && res.value == Header(|insts|, |words|, m).value + Concat(codes) + Cells(padded, m.lutWidth / 8)
  {
    codes := [];
    words, padded := PackLut(lut, m.lutWidth);
    if |insts| > 8 { return Err(TooManyInstructions), codes, words, padded; }
    var header := Header(|insts|, |words|, m);
    if !header.Ok? { return Err(FieldRange), codes, words, padded; }
    var ok;
    ok, codes := EncodeAll(insts);
    res := if ok then Ok(header.value + Concat(codes) + Cells(words, 4)) else Err(InputsClash);
  }

  lemma HeaderRead(insts: nat, words: nat, m: Meta)
    requires insts <= 8 && MetaOk(m) && Header(insts, words, m).Ok?
    ensures var h := Header(insts, words, m).value;
            && h[0] == 1 && h[1] == 0 && 4 * h[2] == |h| && h[11] == 0
            && h[3] == insts && GetLE(h[4..6]) == words && m.lutWidth == 8 * Pow2(h[6]) && h[7] == m.prefetch
            && GetLE(h[8..10]) == m.trailingBytes * 8 && h[10] == m.eofOn
  {
    assert Pow2(0) == 1 && Pow2(1) == 2 && Pow2(2) == 4;
    HalfRoundTrip(words, 2);
    HalfRoundTrip(m.trailingBytes * 8, 2);
    var h := Header(insts, words, m).value;
    var w, t := PutLE(words, 2), PutLE(m.trailingBytes * 8, 2);
    assert h[4..6] == w && h[8..10] == t;
  }

  /** Reading instruction `k` of a file of `count` instructions back from its bytes. */
  function CodeAt(file: seq<Byte>, k: nat): seq<Byte>
    requires 12 + 36 * k + 36 <= |file|
  {
    file[12 + 36 * k..12 + 36 * k + 36]
  }

  lemma PartsOfFile(header: seq<Byte>, body: seq<Byte>, table: seq<Byte>, i: nat, j: nat)
    requires |header| == 12 && i <= j <= |body|
    ensures var file := header + body + table;
            file[12 + i..12 + j] == body[i..j] && file[12 + |body|..] == table
  {}

  lemma CodeIs(file: seq<Byte>, header: seq<Byte>, codes: seq<seq<Byte>>, table: seq<Byte>, k: nat)
    requires |header| == 12 && file == header + Concat(codes) + table && k < |codes|
    requires forall i :: 0 <= i < |codes| ==> |codes[i]| == 36
    ensures |file| >= 12 + 36 * |codes| && file[12 + 36 * |codes|..] == table
    ensures CodeAt(file, k) == codes[k]
  {
    ConcatAt(codes, k);
    PartsOfFile(header, Concat(codes), table, 36 * k, 36 * k + 36);
  }

  /** The bytes of an instruction decode to its selections, widths and operation, with bits that serve
      all its inputs. */
  ghost predicate Decodes(code: seq<Byte>, inst: Inst) {
    && |code| == 36
    && var d := DecodeInst(code);
       && LeastForInst(d.bits, inst) && d.read == inst.read && d.write == inst.write
       && (forall i :: 0 <= i < 32 ==> d.lines[i] == if i in inst.mux then inst.mux[i].number else LOW)
       && (inst.op.Some? ==> (d.code == Meaning(inst.op.value) <==> Target(inst.op.value) < 8))
       && (inst.op.None? ==> d.code == CAdd(false, true, true, 0))
  }

  lemma EncodesDecodes(code: seq<Byte>, inst: Inst)
    requires InstOk(inst) && Encodes(code, inst)
    ensures Decodes(code, inst)
  {
    var bits :| LeastForInst(bits, inst) && BitsOf(code) == FieldsBits(InstFields(WordOf(inst, bits)));
    DecodeEncodedIff(inst, bits, code);
  }

  /** Every instruction of an assembled file is read back from its place, and the table follows behind
      the last. */
  lemma FileReadsBack(file: seq<Byte>, header: seq<Byte>, codes: seq<seq<Byte>>, insts: seq<Inst>, table: seq<Byte>, k: nat)
    requires |header| == 12 && file == header + Concat(codes) + table && |codes| == |insts|
    requires forall i :: 0 <= i < |insts| ==> InstOk(insts[i]) && Encodes(codes[i], insts[i])
    requires k < |insts|
    ensures |file| >= 12 + 36 * |insts| && file[12 + 36 * |insts|..] == table
    ensures Decodes(CodeAt(file, k), insts[k])
  {
    forall i | 0 <= i < |codes| ensures |codes[i]| == 36 { assert Encodes(codes[i], insts[i]); }
    CodeIs(file, header, codes, table, k);
    EncodesDecodes(codes[k], insts[k]);
  }
}
