/** Writing an image through an OTA handle: lazily erased sectors and, with flash encryption, a
    16-byte cache in front of the flash. */
module OtaWrite {
  import opened Arithmetic
  import opened Basics
  import opened OtaPlan

  /** What one flash byte holds: unknown old content, erased, the byte programmed into it while it
      was erased, or garbage because it was programmed without being erased. */
  datatype Cell = Stale | Erased | Data(b: Byte) | Corrupt

  datatype Kind = App | Bootloader | PartitionTable | OtherData

  datatype Error = InvalidArg | InvalidState | EraseFailed | ValidateFailed | WriteFailed
  datatype Result = Ok | Err(error: Error)

  /** The check on the first bytes of an image.  For a partition table it reads two bytes, also when
      one was given; `behind` is the byte in memory behind the data. */
  predicate MagicOk(kind: Kind, data: seq<Byte>, behind: Byte)
    requires |data| > 0
  {
    match kind
    case App => data[0] == 0xE9
    case Bootloader => data[0] == 0xE9
    case PartitionTable => data[0] == 0xAA && (if |data| > 1 then data[1] else behind) == 0x50
    case OtherData => true
  }

  function Program(cell: Cell, b: Byte): Cell {
    if cell == Erased then Data(b) else Corrupt
  }

  function EraseCells(cells: seq<Cell>, off: nat, n: nat): seq<Cell>
    requires off + n <= |cells|
  {
    seq(|cells|, i requires 0 <= i < |cells| => if off <= i < off + n then Erased else cells[i])
  }

  function ProgramCells(cells: seq<Cell>, off: nat, b: seq<Byte>): seq<Cell>
    requires off + |b| <= |cells|
  {
    seq(|cells|, i requires 0 <= i < |cells| =>
      if off <= i < off + |b| then Program(cells[i], b[i - off]) else cells[i])
  }

  /** The flash behind one partition.  An access is refused when it is out of range or not in whole
      sectors, for an erase, or in whole blocks, for a write, of 16 bytes with encryption; besides, the hardware may fail at any time unless it is reliable.
      An access that fails changes nothing. */
  class Flash {
    var cells: seq<Cell>
    const eraseSize: nat
    const block: nat
    const reliable: bool

    constructor (size: nat, eraseSize: nat, block: nat, reliable: bool)
      ensures cells == seq(size, _ => Stale)
      ensures this.eraseSize == eraseSize && this.block == block && this.reliable == reliable
    {
      cells := seq(size, _ => Stale);
      this.eraseSize := eraseSize;
      this.block := block;
      this.reliable := reliable;
    }

    method EraseRange(off: nat, n: nat) returns (ok: bool)
      requires eraseSize > 0
      modifies this`cells
      ensures ok ==> off + n <= old(|cells|) && off % eraseSize == 0 && n % eraseSize == 0
      ensures reliable && off + n <= old(|cells|) && off % eraseSize == 0 && n % eraseSize == 0 ==> ok
      ensures cells == if ok then EraseCells(old(cells), off, n) else old(cells)
    {
      var fault: bool := *;
      ok := off <= |cells| && n <= |cells| - off && n % eraseSize == 0 && off % eraseSize == 0 && (reliable || !fault);
      if ok { cells := EraseCells(cells, off, n); }
    }

    method Write(off: nat, b: seq<Byte>) returns (ok: bool)
      requires block > 0
      modifies this`cells
      ensures ok ==> off + |b| <= old(|cells|) && off % block == 0 && |b| % block == 0
      ensures reliable && off + |b| <= old(|cells|) && off % block == 0 && |b| % block == 0 ==> ok
      ensures cells == if ok then ProgramCells(old(cells), off, b) else old(cells)
    {
      var fault: bool := *;
      ok := off <= |cells| && |b| <= |cells| - off && off % block == 0 && |b| % block == 0 && (reliable || !fault);
      if ok { cells := ProgramCells(cells, off, b); }
    }
  }

  // ------------------------------------------------------------------ flash content

  /** The flash of a handle that holds the bytes `stream`, the first `wrote` of them in flash:
      `cover` tells which cells were erased, and a written byte is right exactly there. */
  ghost function Image(stream: seq<Byte>, wrote: nat, cover: seq<bool>): seq<Cell>
    requires wrote <= |stream|
  {
    seq(|cover|, i requires 0 <= i < |cover| =>
      if i < wrote then (if cover[i] then Data(stream[i]) else Corrupt)
      else if cover[i] then Erased else Stale)
  }

  ghost function Marked(cover: seq<bool>, off: nat, n: nat): seq<bool> {
    seq(|cover|, i requires 0 <= i < |cover| => cover[i] || off <= i < off + n)
  }

  /** Erased from the start up to `erased`. */
  ghost function Upto(size: nat, erased: nat): seq<bool> {
    seq(size, i => i < erased)
  }

  /** An erase that touches no written byte only marks cells erased. */
  lemma EraseImage(stream: seq<Byte>, wrote: nat, cover: seq<bool>, off: nat, n: nat)
    requires wrote <= |stream| && wrote <= off && off + n <= |cover|
    ensures EraseCells(Image(stream, wrote, cover), off, n) == Image(stream, wrote, Marked(cover, off, n))
  {}

  /** Writing the next bytes of the stream only moves the write offset. */
  lemma ProgramImage(stream: seq<Byte>, wrote: nat, cover: seq<bool>, k: nat)
    requires wrote + k <= |stream| && wrote + k <= |cover|
    ensures ProgramCells(Image(stream, wrote, cover), wrote, stream[wrote..wrote + k])
            == Image(stream, wrote + k, cover)
  {}

  lemma ImagePrefix(stream: seq<Byte>, other: seq<Byte>, wrote: nat, cover: seq<bool>)
    requires wrote <= |stream| && wrote <= |other| && stream[..wrote] == other[..wrote]
    ensures Image(stream, wrote, cover) == Image(other, wrote, cover)
  {
    assert forall i :: 0 <= i < wrote ==> stream[i] == stream[..wrote][i] == other[..wrote][i] == other[i];
  }

  lemma MarkUpto(size: nat, erased: nat, off: nat, n: nat)
    requires off <= erased
    ensures Marked(Upto(size, erased), off, n) == Upto(size, Max(erased, off + n))
  {}

  /** The stream can be read back from the flash. */
  ghost predicate Stored(cells: seq<Cell>, stream: seq<Byte>) {
    |stream| <= |cells| && forall i :: 0 <= i < |stream| ==> cells[i] == Data(stream[i])
  }

  /** The first `n` cells were erased. */
  ghost predicate Covers(cover: seq<bool>, n: nat) {
    n <= |cover| && forall i :: 0 <= i < n ==> cover[i]
  }

  lemma UptoCoversIff(size: nat, erased: nat, n: nat)
    requires n <= size
    ensures Covers(Upto(size, erased), n) <==> n <= erased
  {
    if erased < n { assert !Upto(size, erased)[erased]; }
  }

  lemma StoredIff(stream: seq<Byte>, cover: seq<bool>)
    requires |stream| <= |cover|
    ensures Stored(Image(stream, |stream|, cover), stream) <==> Covers(cover, |stream|)
  {
    var cells := Image(stream, |stream|, cover);
    assert forall i :: 0 <= i < |stream| ==> cells[i] == if cover[i] then Data(stream[i]) else Corrupt;
  }

  /** The same with the end of the stream in a padded last block. */
  lemma TailStoredIff(stream: seq<Byte>, wrote: nat, cover: seq<bool>, pad: seq<Byte>)
    requires wrote <= |stream| <= wrote + |pad| <= |cover| && pad[..|stream| - wrote] == stream[wrote..]
    ensures Stored(ProgramCells(Image(stream, wrote, cover), wrote, pad), stream) <==> Covers(cover, |stream|)
  {
    var cells := ProgramCells(Image(stream, wrote, cover), wrote, pad);
    forall i | 0 <= i < |stream| ensures cells[i] == if cover[i] then Data(stream[i]) else Corrupt {
      if i >= wrote { assert stream[i] == stream[wrote..][i - wrote] == pad[i - wrote]; }
    }
  }

  // ------------------------------------------------------------------ what a failed write leaves

  /** What one write adds to the bytes held: all of its data when accepted; after a failure what was
      cached, so far as the data before it was written. */
  function Kept(partial: nat, data: seq<Byte>, e: Event): seq<Byte>
    requires e.BlockLost? || e.BodyLost? ==> ReachesBody(partial, |data|)
  {
    match e
    case Accepted(_) => data
    case NotErased => []
    case Refused(_) => []
    case BlockLost(_) => data[..TopUpLen(partial)]
    case BodyLost(_) => var c := TopUpLen(partial); data[..c] + data[c + Whole(|data| - c)..]
  }

  /** A successful write of the same data behind a failed one leaves the right stream exactly when the
      failed one left nothing of it in the cache. */
  lemma RetryAddsKept(stream: seq<Byte>, kept: seq<Byte>, data: seq<Byte>)
    ensures stream + kept + data == stream + data <==> kept == []
  {
    assert |stream + kept + data| == |stream| + |kept| + |data|;
    if kept == [] { assert stream + kept == stream; }
  }

  /** The ways in which a write of `n` bytes can fail. */
  ghost predicate Failure(encrypted: bool, p: Plan, n: nat, e: Event) {
    Possible(encrypted, p, e) && !e.Accepted? && (!e.NotErased? ==> e.n == n)
  }

  /** A retry is safe however the write before it failed, which the caller is not told, exactly when
      there is no encryption, or the data fit the cache without filling a block, or no block is begun
      in the cache and the data are whole blocks. */
  lemma RetryIsRightIff(encrypted: bool, p: Plan, stream: seq<Byte>, data: seq<Byte>)
    requires p.partial <= 16 && data != []
    ensures (forall e :: Failure(encrypted, p, |data|, e) ==> stream + Kept(p.partial, data, e) + data == stream + data)
            <==> !encrypted || !ReachesBody(p.partial, |data|) || (p.partial % 16 == 0 && |data| % 16 == 0)
  {
    var n := |data|;
    forall e | Failure(encrypted, p, n, e)
      ensures stream + Kept(p.partial, data, e) + data == stream + data <==> Kept(p.partial, data, e) == []
    {
      RetryAddsKept(stream, Kept(p.partial, data, e), data);
    }
    if encrypted && ReachesBody(p.partial, n) && !(p.partial % 16 == 0 && n % 16 == 0) {
      assert Failure(encrypted, p, n, BodyLost(n));
      if p.partial > 0 { assert Failure(encrypted, p, n, BlockLost(n)); }
    }
  }

  /** 4095 bytes given, a write of 16 bytes that fails in its cached block, and its retry: the handle
      holds 4112 bytes for 4111 given, the first byte of the write twice. */
  lemma RetryStoresTwice(es: nat, stream: seq<Byte>, data: seq<Byte>, n: nat, m: nat)
    requires es == 4096 && n == 4080 && m == 15 && |stream| == n + m && |data| == 16
    ensures var p := PlanRun(true, es, true, Plan(0, 0, 0), [n, m]);
            && Failure(true, p, |data|, BlockLost(|data|))
            && var held := stream + Kept(p.partial, data, BlockLost(|data|)) + data;
               held == stream + [data[0]] + data && |held| == 4112
  {
    BeforeLoss(es, n, m);
  }

  lemma SplitAt(s: seq<Byte>, data: seq<Byte>, i: nat)
    requires i <= |data|
    ensures s + data[..i] + data[i..] == s + data
  {}

  lemma SplitTail(s: seq<Byte>, a: seq<Byte>, b: seq<Byte>)
    ensures s + a + b == s + (a + b)
  {}

  lemma BehindPrefix(s: seq<Byte>, rest: seq<Byte>, k: nat)
    requires k <= |rest|
    ensures (s + rest)[|s|..|s| + k] == rest[..k] && (s + rest)[|s| + k..] == rest[k..]
    ensures (s + rest[k..])[|s|..] == rest[k..]
  {}

  /** Topping up a cached block takes whole blocks out of the rest. */
  lemma WholeBehindBlock(w: nat, p: nat, n: nat, c: nat)
    requires w % 16 == 0 && p + c == 16 && c <= n
    ensures Whole(w + p + n) == w + 16 + Whole(n - c)
  {}

  lemma WholeIs(w: nat, p: nat)
    requires w % 16 == 0 && p < 16
    ensures Whole(w + p) == w
  {}

  lemma WholeSum(w: nat, n: nat)
    requires w % 16 == 0
    ensures Whole(w + n) == w + Whole(n)
  {}

  /** A write with flash encryption of `data` took counts `p` and stream `s` to `q` and `t`. */
  ghost predicate Outcome(es: nat, p: Plan, s: seq<Byte>, q: Plan, t: seq<Byte>, data: seq<Byte>, e: Event)
    requires es > 0
  {
    && (e.Accepted? || e.BlockLost? || e.BodyLost?) && e.n == |data|
    && Possible(true, p, e) && q == PlanEvent(true, es, false, p, e)
    && t == s + Kept(p.partial, data, e)
  }

  /** All of it fits the cached block. */
  lemma OutcomeCached(es: nat, p: Plan, s: seq<Byte>, data: seq<Byte>)
    requires es > 0 && p.wrote % 16 == 0 && |data| > 0 && p.partial + |data| < 16
    ensures Outcome(es, p, s, Plan(p.wrote, p.partial + |data|, p.erased), s + data, data, Accepted(|data|))
  {
    WholeIs(p.wrote, p.partial + |data|);
  }

  lemma OutcomeBlockLost(es: nat, p: Plan, s: seq<Byte>, data: seq<Byte>)
    requires es > 0 && 0 < p.partial <= 16 && |data| > 0 && ReachesBody(p.partial, |data|)
    ensures Outcome(es, p, s, Plan(p.wrote, 16, p.erased), s + data[..TopUpLen(p.partial)], data, BlockLost(|data|))
  {}

  /** The cached block, if any, was written; then the whole blocks were written or lost. */
  lemma OutcomeBody(es: nat, p: Plan, s: seq<Byte>, data: seq<Byte>, c: nat, w: nat, rest: seq<Byte>)
    requires es > 0 && p.wrote % 16 == 0 && p.partial <= 16 && |data| > 0 && ReachesBody(p.partial, |data|)
    requires c == TopUpLen(p.partial) && rest == data[c..] && w == p.wrote + (if p.partial > 0 then 16 else 0)
    ensures var r := |rest| - Whole(|rest|);
            && Outcome(es, p, s, Plan(w + Whole(|rest|), r, p.erased), s + data[..c] + rest, data, Accepted(|data|))
            && Outcome(es, p, s, Plan(w, r, p.erased), s + data[..c] + rest[Whole(|rest|)..], data, BodyLost(|data|))
  {
    if p.partial > 0 { WholeBehindBlock(p.wrote, p.partial, |data|, c); } else { WholeSum(p.wrote, |data|); }
    SplitAt(s, data, c);
    SplitTail(s, data[..c], rest[Whole(|rest|)..]);
    assert rest[Whole(|rest|)..] == data[c + Whole(|rest|)..];
  }

  /** A write of `data` that ended as `e` took counts `p` and stream `s` to counts with the sizes of
      `q` and stream `t`. */
  ghost predicate Ended(encrypted: bool, es: nat, sequential: bool, p: Plan, s: seq<Byte>, q: Plan, t: seq<Byte>, data: seq<Byte>, e: Event)
    requires es > 0
  {
    && (e.NotErased? || e.n == |data|) && Possible(encrypted, p, e)
    && t == s + Kept(p.partial, data, e)
    && q.(erased := 0) == PlanEvent(encrypted, es, sequential, p, e).(erased := 0)
  }

  lemma EndedEmpty(encrypted: bool, es: nat, sequential: bool, p: Plan, s: seq<Byte>, data: seq<Byte>, e: Event)
    requires es > 0 && (e == NotErased || (data == [] && e == Accepted(0)))
    ensures Ended(encrypted, es, sequential, p, s, p, s, data, e) && PlanEvent(encrypted, es, sequential, p, e) == p
    ensures !RiskyEvent(encrypted, es, sequential, p, e)
  {
    assert s + [] == s;
  }

  lemma BehindErase(encrypted: bool, es: nat, sequential: bool, p: Plan, e: Event, x: nat)
    requires es > 0 && Possible(encrypted, p, e) && !e.NotErased? && e.n > 0
    ensures PlanEvent(encrypted, es, false, Plan(p.wrote, p.partial, x), e) == PlanEvent(encrypted, es, sequential, p, e).(erased := x)
    ensures PlanEvent(encrypted, es, sequential, p, e).erased == PlanErased(es, sequential, p, e.n)
  {}

  /** The counts after a write whose erase moved the end of the erased part to `x`. */
  lemma EndedBehind(encrypted: bool, es: nat, sequential: bool, p: Plan, s: seq<Byte>, q: Plan, t: seq<Byte>,
                    data: seq<Byte>, e: Event, x: nat)
    requires es > 0 && Possible(encrypted, p, e) && !e.NotErased? && e.n == |data| > 0
    requires q == PlanEvent(encrypted, es, false, Plan(p.wrote, p.partial, x), e) && t == s + Kept(p.partial, data, e)
    ensures Ended(encrypted, es, sequential, p, s, q, t, data, e)
    ensures x == PlanErased(es, sequential, p, |data|) ==> q == PlanEvent(encrypted, es, sequential, p, e)
  {
    BehindErase(encrypted, es, sequential, p, e, x);
  }

  /** The first data of an image starts with the right bytes. */
  predicate FirstOk(kind: Kind, held: nat, data: seq<Byte>, behind: Byte)
    requires |data| > 0
  {
    held == 0 ==> MagicOk(kind, data, behind)
  }

  /** Data behind `held` bytes stays in the partition and, when it is the first, starts right. */
  predicate Fits(kind: Kind, encrypted: bool, held: nat, data: seq<Byte>, behind: Byte, size: nat)
    requires |data| > 0
  {
    FirstOk(kind, held, data, behind) && PlanEnd(encrypted, held + |data|) <= size
  }

  /** A write that reliable flash of the given size accepts: an empty one, or one whose erase and
      data stay in the partition and that, when it is the first, starts with the right bytes. */
  predicate ChunkOk(kind: Kind, encrypted: bool, es: nat, sequential: bool, p: Plan, data: seq<Byte>, behind: Byte, size: nat)
    requires es > 0
  {
    |data| > 0 ==>
      PlanErased(es, sequential, p, |data|) <= size && Fits(kind, encrypted, p.wrote + p.partial, data, behind, size)
  }

  /** `esp_ota_end` finds data, and room for the padded last block. */
  predicate EndOk(p: Plan, size: nat) { p.wrote > 0 && (p.partial > 0 ==> p.wrote + 16 <= size) }

  // ------------------------------------------------------------------ the handle

  class OtaHandle {
    const flash: Flash
    const encrypted: bool
    const needErase: bool
    const kind: Kind
    var wroteSize: nat
    var partialBytes: nat
    const partialData: array<Byte>

    /** The bytes in flash and in the cache, which cells were erased, and the end of the last erase. */
    ghost var stream: seq<Byte>
    ghost var cover: seq<bool>
    ghost var erased: nat

    ghost function Counts(): Plan
      reads this
    {
      Plan(wroteSize, partialBytes, erased)
    }

    predicate BlocksFit() { flash.block == 1 || (encrypted && flash.block == 16) }

    /** In every mix of successful and failed calls: flash up to `wroteSize`, then the cached bytes,
        are the stream, and a byte in flash is right exactly when its cell was erased. */
    ghost predicate Valid()
      reads this, flash, partialData
    {
      && partialData.Length == 16 && partialBytes <= 16
      && flash.eraseSize > 0 && flash.eraseSize % 16 == 0 && BlocksFit()
      && (if encrypted then wroteSize % 16 == 0 else partialBytes == 0)
      && |cover| == |flash.cells| && wroteSize <= |cover|
      && |stream| == wroteSize + partialBytes
      && partialData[..partialBytes] == stream[wroteSize..]
      && flash.cells == Image(stream, wroteSize, cover)
    }

    /** Besides, the partition is erased from its start up to `erased`, and with lazy erase all bytes
        in flash lie below that line. */
    ghost predicate Lined()
      reads this, flash
    {
      && cover == Upto(|flash.cells|, erased) && erased <= |flash.cells|
      && PlanOk(encrypted, flash.eraseSize, needErase, Counts())
    }

    /** The entry that `esp_ota_begin` creates, before anything is erased. */
    constructor (flash: Flash, imageSize: nat, encrypted: bool, kind: Kind)
      requires flash.eraseSize > 0 && flash.eraseSize % 16 == 0
      requires flash.block == 1 || (encrypted && flash.block == 16)
      requires flash.cells == seq(|flash.cells|, _ => Stale)
      ensures Valid() && Lined() && fresh(partialData)
      ensures this.flash == flash && this.encrypted == encrypted && this.kind == kind
      ensures needErase == (imageSize == OTA_WITH_SEQUENTIAL_WRITES)
      ensures stream == [] && Counts() == Plan(0, 0, 0)
    {
      this.flash := flash;
      this.encrypted := encrypted;
      this.kind := kind;
      needErase := imageSize == OTA_WITH_SEQUENTIAL_WRITES;
      wroteSize, partialBytes := 0, 0;
      partialData := new Byte[16](_ => 0);
      stream, erased, cover := [], 0, Upto(|flash.cells|, 0);
    }

    /** The up-front erase: nothing, the whole partition, or the image size in whole sectors. */
    method Begin(imageSize: nat) returns (res: Result)
      requires Valid() && Lined() && imageSize < U32 && needErase == (imageSize == OTA_WITH_SEQUENTIAL_WRITES)
      requires stream == [] && Counts() == Plan(0, 0, 0)
      modifies this`erased, this`cover, flash`cells
      ensures Valid() && Lined() && |flash.cells| == old(|flash.cells|)
      ensures res.Ok? && !needErase ==> erased == EraseSize(|flash.cells|, flash.eraseSize, imageSize)
      ensures needErase ==> res.Ok? && erased == 0
      ensures flash.reliable && !needErase ==> (res.Ok? <==> EraseSizeOk(|flash.cells|, flash.eraseSize, imageSize))
    {
      if imageSize != OTA_WITH_SEQUENTIAL_WRITES {
        var n := EraseSize(|flash.cells|, flash.eraseSize, imageSize);
        Multiple((imageSize + flash.eraseSize - 1) % U32 / flash.eraseSize, flash.eraseSize);
        var ok := flash.EraseRange(0, n);
        if !ok { return Err(EraseFailed); }
        EraseImage(stream, 0, cover, 0, n);
        MarkUpto(|cover|, 0, 0, n);
        cover := Marked(cover, 0, n);
        erased := n;
      }
      res := Ok;
    }

    /** An erase at or behind the write offset: it touches no written byte. */
    method EraseFree(off: nat, n: nat) returns (ok: bool)
      requires Valid() && wroteSize <= off
      modifies this`cover, flash`cells
      ensures Valid() && |flash.cells| == old(|flash.cells|)
      ensures cover == if ok then Marked(old(cover), off, n) else old(cover)
      ensures ok ==> off + n <= |flash.cells|
      ensures flash.reliable && off + n <= |flash.cells| && off % flash.eraseSize == 0 && n % flash.eraseSize == 0 ==> ok
    {
      if off + n <= |cover| { EraseImage(stream, wroteSize, cover, off, n); }
      ok := flash.EraseRange(off, n);
      if ok { cover := Marked(cover, off, n); }
    }

    /** The lazy erase before a write of `n` bytes, when it is needed.  It touches no written byte;
        `target` is the end of the erased part behind it. */
    method EraseAhead(n: nat, ghost target: nat) returns (ok: bool)
      requires Valid() && n > 0 && wroteSize + n < U32 && target == PlanErased(flash.eraseSize, needErase, Counts(), n)
      modifies this`erased, this`cover, flash`cells
      ensures Valid() && |flash.cells| == old(|flash.cells|)
      ensures !ok ==> erased == old(erased) && cover == old(cover)
      ensures ok && old(Lined()) ==>
                && erased == target && cover == Upto(|flash.cells|, erased) && erased <= |flash.cells|
      ensures flash.reliable && old(Lined()) && target <= |flash.cells| ==> ok
    {
      if !needErase { return true; }
      var (off, len) := EraseSpan(flash.eraseSize, wroteSize, n);
      if Lined() {
        EraseSpanOk(flash.eraseSize, Counts(), n);
        MarkUpto(|cover|, erased, off, len);
      }
      ok := true;
      if len > 0 { ok := EraseFree(off, len); }
      if ok { erased := Max(erased, off + len); }
    }

    method CopyToCache(at: nat, b: seq<Byte>)
      requires at + |b| <= partialData.Length
      modifies partialData
      ensures partialData[..at] == old(partialData[..at]) && partialData[at..at + |b|] == b
    {
      var i := 0;
      while i < |b|
        invariant 0 <= i <= |b|
        invariant partialData[..at] == old(partialData[..at]) && partialData[at..at + i] == b[..i]
      {
        partialData[at + i] := b[i];
        i := i + 1;
      }
    }

    /** Program the next bytes of the stream and move the write offset on. */
    method Flush(b: seq<Byte>) returns (ok: bool)
      requires wroteSize + |b| <= |stream| && b == stream[wroteSize..wroteSize + |b|]
      requires |cover| == |flash.cells| && flash.cells == Image(stream, wroteSize, cover)
      requires BlocksFit() && (encrypted ==> wroteSize % 16 == 0 && |b| % 16 == 0)
      modifies this`wroteSize, flash`cells
      ensures |flash.cells| == old(|flash.cells|)
      ensures if ok then wroteSize == old(wroteSize) + |b| <= |cover| && flash.cells == Image(stream, wroteSize, cover)
              else wroteSize == old(wroteSize) && flash.cells == old(flash.cells)
      ensures flash.reliable && old(wroteSize) + |b| <= |flash.cells| ==> ok
    {
      ok := flash.Write(wroteSize, b);
      if ok {
        ProgramImage(stream, wroteSize, cover, |b|);
        wroteSize := wroteSize + |b|;
      }
    }

    /** The write path without flash encryption: all or nothing. */
    method WriteThrough(data: seq<Byte>) returns (ok: bool)
      requires Valid() && !encrypted
      modifies this`wroteSize, this`stream, flash`cells
      ensures Valid() && |flash.cells| == old(|flash.cells|)
      ensures stream == if ok then old(stream) + data else old(stream)
      ensures flash.reliable && old(wroteSize) + |data| <= |flash.cells| ==> ok
    {
      ghost var before := stream;
      ImagePrefix(stream, stream + data, wroteSize, cover);
      stream := stream + data;
      ok := Flush(data);
      if !ok { stream := before; }
    }

    /** First part of the cached path: top up the cached block and write it when it is full.  When
        that fails, the full block stays in the cache. */
    method TopUp(data: seq<Byte>) returns (ok: bool, copyLen: nat)
      requires Valid() && encrypted && partialBytes > 0
      modifies this`wroteSize, this`partialBytes, this`stream, partialData, flash`cells
      ensures Valid() && |flash.cells| == old(|flash.cells|)
      ensures copyLen == Min(TopUpLen(old(partialBytes)), |data|) && stream == old(stream) + data[..copyLen]
      ensures if old(partialBytes) + copyLen < 16 then
                ok && wroteSize == old(wroteSize) && partialBytes == old(partialBytes) + copyLen
              else if ok then wroteSize == old(wroteSize) + 16 && partialBytes == 0
              else wroteSize == old(wroteSize) && partialBytes == 16
      ensures ok && partialBytes == 0 ==> forall i :: 0 <= i < 16 ==> partialData[i] == 0xFF
      ensures flash.reliable && old(wroteSize) + 16 <= |flash.cells| ==> ok
    {
      copyLen := Min(16 - partialBytes, |data|);
      ImagePrefix(stream, stream + data[..copyLen], wroteSize, cover);
      CopyToCache(partialBytes, data[..copyLen]);
      assert partialData[..partialBytes + copyLen] == partialData[..partialBytes] + data[..copyLen];
      stream := stream + data[..copyLen];
      partialBytes := partialBytes + copyLen;
      if partialBytes != 16 { return true, copyLen; }
      ok := Flush(partialData[..16]);
      if !ok { return; }
      partialBytes := 0;
      forall i | 0 <= i < 16 { partialData[i] := 0xFF; }
    }

    /** Second part: whole blocks straight to flash, the remainder to the empty cache.  When the
        blocks cannot be written, the remainder stays in the cache. */
    method WriteBlocks(rest: seq<Byte>) returns (ok: bool)
      requires Valid() && encrypted && partialBytes == 0
      modifies this`wroteSize, this`partialBytes, this`stream, partialData, flash`cells
      ensures Valid() && |flash.cells| == old(|flash.cells|) && partialBytes == |rest| - Whole(|rest|)
      ensures if ok then stream == old(stream) + rest && wroteSize == old(wroteSize) + Whole(|rest|)
              else stream == old(stream) + rest[Whole(|rest|)..] && wroteSize == old(wroteSize)
      ensures flash.reliable && old(wroteSize) + Whole(|rest|) <= |flash.cells| ==> ok
    {
      ghost var before := stream;
      partialBytes := |rest| % 16;
      var body := |rest| - partialBytes;
      ImagePrefix(before, before + rest, wroteSize, cover);
      ImagePrefix(before, before + rest[body..], wroteSize, cover);
      BehindPrefix(before, rest, body);
      if partialBytes != 0 { CopyToCache(0, rest[body..]); }
      stream := before + rest;
      ok := Flush(rest[..body]);
      if !ok { stream := before + rest[body..]; }
    }

    /** The cached path behind the cached block: `p` and `s` are the counts and the stream before
        the write, and its first `c` bytes went into that block. */
    method WriteBody(data: seq<Byte>, c: nat, ghost p: Plan, ghost s: seq<Byte>) returns (ok: bool, ghost e: Event)
      requires Valid() && encrypted && |data| > 0 && partialBytes == 0
      requires p.wrote % 16 == 0 && p.partial <= 16 && ReachesBody(p.partial, |data|) && c == TopUpLen(p.partial)
      requires Counts() == Plan(p.wrote + (if p.partial > 0 then 16 else 0), 0, p.erased) && stream == s + data[..c]
      modifies this`wroteSize, this`partialBytes, this`stream, partialData, flash`cells
      ensures Valid() && |flash.cells| == old(|flash.cells|)
      ensures (ok <==> e.Accepted?) && Outcome(flash.eraseSize, p, s, Counts(), stream, data, e)
      ensures flash.reliable && PlanEnd(true, p.wrote + p.partial + |data|) <= |flash.cells| ==> ok
    {
      OutcomeBody(flash.eraseSize, p, s, data, c, wroteSize, data[c..]);
      ok := WriteBlocks(data[c..]);
      e := if ok then Accepted(|data|) else BodyLost(|data|);
    }

    /** The write path with flash encryption, and how it ended. */
    method WriteCached(data: seq<Byte>) returns (ok: bool, ghost e: Event)
      requires Valid() && encrypted && |data| > 0
      modifies this`wroteSize, this`partialBytes, this`stream, partialData, flash`cells
      ensures Valid() && |flash.cells| == old(|flash.cells|)
      ensures (ok <==> e.Accepted?) && Outcome(flash.eraseSize, old(Counts()), old(stream), Counts(), stream, data, e)
      ensures flash.reliable && PlanEnd(true, old(wroteSize + partialBytes) + |data|) <= |flash.cells| ==> ok
    {
      ghost var p, s := Counts(), stream;
      var copyLen := 0;
      if partialBytes != 0 {
        if p.partial + |data| < 16 {
          OutcomeCached(flash.eraseSize, p, s, data);
          assert data[..|data|] == data;
        } else {
          OutcomeBlockLost(flash.eraseSize, p, s, data);
          OutcomeBody(flash.eraseSize, p, s, data, TopUpLen(p.partial), p.wrote + 16, data[TopUpLen(p.partial)..]);
        }
        ok, copyLen := TopUp(data);
        if !ok { return false, BlockLost(|data|); }
        if partialBytes != 0 { return true, Accepted(|data|); }
      } else {
        assert s + data[..0] == s;
      }
      ok, e := WriteBody(data, copyLen, p, s);
    }

    /** The part of a write behind the erase and the check of the first bytes. */
    method Store(data: seq<Byte>) returns (ok: bool, ghost e: Event)
      requires Valid() && |data| > 0
      modifies this`wroteSize, this`partialBytes, this`stream, partialData, flash`cells
      ensures Valid() && |flash.cells| == old(|flash.cells|)
      ensures (ok <==> e.Accepted?) && !e.NotErased? && e.n == |data| && Possible(encrypted, old(Counts()), e)
      ensures Counts() == PlanEvent(encrypted, flash.eraseSize, false, old(Counts()), e)
      ensures stream == old(stream) + Kept(old(partialBytes), data, e)
      ensures ok ==> PlanEnd(encrypted, old(wroteSize + partialBytes) + |data|) <= |flash.cells|
      ensures flash.reliable && PlanEnd(encrypted, old(wroteSize + partialBytes) + |data|) <= |flash.cells| ==> ok
    {
      if encrypted {
        ok, e := WriteCached(data);
      } else {
        assert stream + [] == stream;
        ok := WriteThrough(data);
        e := if ok then Accepted(|data|) else Refused(|data|);
      }
    }

    /** The same with the check of the first bytes. */
    method CheckAndStore(data: seq<Byte>, behind: Byte, ghost fits: bool) returns (res: Result, ghost e: Event)
      requires Valid() && |data| > 0
      requires fits == Fits(kind, encrypted, wroteSize + partialBytes, data, behind, |flash.cells|)
      modifies this`wroteSize, this`partialBytes, this`stream, partialData, flash`cells
      ensures Valid() && |flash.cells| == old(|flash.cells|)
      ensures (res.Ok? <==> e.Accepted?) && res != Err(EraseFailed)
      ensures !e.NotErased? && e.n == |data| && Possible(encrypted, old(Counts()), e)
      ensures Counts() == PlanEvent(encrypted, flash.eraseSize, false, old(Counts()), e)
      ensures stream == old(stream) + Kept(old(partialBytes), data, e)
      ensures (res.Ok? ==> fits) && (flash.reliable && fits ==> res.Ok?)
    {
      if wroteSize == 0 && partialBytes == 0 {
        if !MagicOk(kind, data, behind) {
          assert stream + [] == stream;
          return Err(ValidateFailed), Refused(|data|);
        }
      }
      var ok;
      ok, e := Store(data);
      res := if ok then Ok else Err(WriteFailed);
    }

    /** A write of some data: erase, check, store. */
    method Attempt(data: seq<Byte>, behind: Byte, ghost target: nat, ghost fits: bool) returns (res: Result, ghost e: Event)
      requires Valid() && |data| > 0 && wroteSize + |data| < U32
      requires target == PlanErased(flash.eraseSize, needErase, Counts(), |data|)
      requires fits == Fits(kind, encrypted, wroteSize + partialBytes, data, behind, |flash.cells|)
      modifies this`wroteSize, this`partialBytes, this`stream, this`erased, this`cover, partialData, flash`cells
      ensures Valid() && |flash.cells| == old(|flash.cells|)
      ensures (res.Ok? <==> e.Accepted?) && (res == Err(EraseFailed) <==> e.NotErased?)
      ensures e.NotErased? ==> Counts() == old(Counts()) && stream == old(stream) && cover == old(cover)
      ensures !e.NotErased? ==>
                && e.n == |data| && Possible(encrypted, old(Counts()), e) && stream == old(stream) + Kept(old(partialBytes), data, e)
                && Counts() == PlanEvent(encrypted, flash.eraseSize, false, Plan(old(wroteSize), old(partialBytes), erased), e)
                && (old(Lined()) ==>
                      && erased == target && cover == Upto(|flash.cells|, erased) && erased <= |flash.cells|)
      ensures (res.Ok? ==> fits) && (!e.NotErased? && flash.reliable && fits ==> res.Ok?)
      ensures e.NotErased? && flash.reliable && old(Lined()) ==> target > |flash.cells|
    {
      var ok := EraseAhead(|data|, target);
      if !ok { return Err(EraseFailed), NotErased; }
      res, e := CheckAndStore(data, behind, fits);
    }

    lemma Concluded(p: Plan, s: seq<Byte>, data: seq<Byte>, e: Event, target: nat, lined: bool)
      requires flash.eraseSize > 0 && |data| > 0 && target == PlanErased(flash.eraseSize, needErase, p, |data|)
      requires e.NotErased? ==> Counts() == p && stream == s
      requires !e.NotErased? ==>
                 && e.n == |data| && Possible(encrypted, p, e) && stream == s + Kept(p.partial, data, e)
                 && Counts() == PlanEvent(encrypted, flash.eraseSize, false, Plan(p.wrote, p.partial, erased), e)
                 && (lined ==> erased == target)
      requires lined ==> PlanOk(encrypted, flash.eraseSize, needErase, p)
      ensures Ended(encrypted, flash.eraseSize, needErase, p, s, Counts(), stream, data, e)
      ensures lined ==>
                && Counts() == PlanEvent(encrypted, flash.eraseSize, needErase, p, e)
                && (PlanOk(encrypted, flash.eraseSize, needErase, Counts()) <==>
                    !RiskyEvent(encrypted, flash.eraseSize, needErase, p, e))
    {
      if e.NotErased? {
        EndedEmpty(encrypted, flash.eraseSize, needErase, p, s, data, e);
      } else {
        EndedBehind(encrypted, flash.eraseSize, needErase, p, s, Counts(), stream, data, e, erased);
        if lined { EventOkIff(encrypted, flash.eraseSize, needErase, p, e); }
      }
    }

    /** `esp_ota_write`, and how it ended.  Whatever happens, the handle holds the bytes it held
        before and what this write kept, and each byte in flash is right exactly where the flash was
        erased; with lazy erase that is everywhere unless the write is risky. */
    method WriteChunk(data: seq<Byte>, behind: Byte) returns (res: Result, ghost e: Event)
      requires Valid() && wroteSize + |data| < U32
      modifies this`wroteSize, this`partialBytes, this`stream, this`erased, this`cover, partialData, flash`cells
      ensures Valid() && |flash.cells| == old(|flash.cells|)
      ensures (res.Ok? <==> e.Accepted?) && (res == Err(EraseFailed) <==> e.NotErased?)
      ensures Ended(encrypted, flash.eraseSize, needErase, old(Counts()), old(stream), Counts(), stream, data, e)
      ensures old(Lined()) ==>
                && Counts() == PlanEvent(encrypted, flash.eraseSize, needErase, old(Counts()), e)
                && (Lined() <==> !RiskyEvent(encrypted, flash.eraseSize, needErase, old(Counts()), e))
      ensures flash.reliable && old(Lined()) ==>
                (res.Ok? <==> ChunkOk(kind, encrypted, flash.eraseSize, needErase, old(Counts()), data, behind, |flash.cells|))
      ensures res.Ok? && |data| > 0 ==> Fits(kind, encrypted, old(wroteSize + partialBytes), data, behind, |flash.cells|)
    {
      if |data| == 0 {
        EndedEmpty(encrypted, flash.eraseSize, needErase, Counts(), stream, data, Accepted(0));
        return Ok, Accepted(0);
      }
      ghost var p, s, lined := Counts(), stream, Lined();
      ghost var target := PlanErased(flash.eraseSize, needErase, p, |data|);
      ghost var fits := Fits(kind, encrypted, p.wrote + p.partial, data, behind, |flash.cells|);
      assert ChunkOk(kind, encrypted, flash.eraseSize, needErase, p, data, behind, |flash.cells|) == (target <= |flash.cells| && fits);
      res, e := Attempt(data, behind, target, fits);
      Concluded(p, s, data, e, target, lined);
    }

    /** `esp_ota_end` up to the verdict of the image check, `verified`.  The stream, with its padded
        last block, is right in flash exactly when its cells were erased. */
    method End(verified: bool) returns (res: Result)
      requires Valid()
      modifies this`wroteSize, this`partialBytes, flash`cells
      ensures |flash.cells| == old(|flash.cells|) && stream == old(stream) && cover == old(cover)
      ensures res.Ok? ==> old(wroteSize) + (if old(partialBytes) > 0 then 16 else 0) <= |flash.cells|
      ensures old(wroteSize) == 0 ==> res == Err(InvalidArg)
      ensures res.Ok? ==> (Stored(flash.cells, stream) <==> Covers(cover, |stream|))
      ensures res.Ok? ==> |stream| <= |flash.cells|
      ensures res.Ok? ==>
                flash.cells == if old(partialBytes) == 0 then old(flash.cells)
                               else ProgramCells(old(flash.cells), old(wroteSize), partialData[..16])
      ensures res.Ok? ==> wroteSize == old(wroteSize) + (if old(partialBytes) > 0 then 16 else 0) && partialBytes == 0
      ensures flash.reliable ==> (res.Ok? <==> verified && EndOk(old(Counts()), |flash.cells|))
    {
      if wroteSize == 0 { return Err(InvalidArg); }
      if partialBytes > 0 {
        if wroteSize + 16 <= |cover| { TailStoredIff(stream, wroteSize, cover, partialData[..16]); }
        var ok := flash.Write(wroteSize, partialData[..16]);
        if !ok { return Err(InvalidState); }
        wroteSize := wroteSize + 16;
        partialBytes := 0;
      } else {
        StoredIff(stream, cover);
      }
      res := if verified then Ok else Err(ValidateFailed);
    }
  }

  function Sizes(chunks: seq<seq<Byte>>): (r: seq<nat>)
    ensures |r| == |chunks|
  {
    if chunks == [] then [] else Sizes(chunks[..|chunks| - 1]) + [|chunks[|chunks| - 1]|]
  }

  lemma {:induction false} PlanRunFixed(encrypted: bool, es: nat, p: Plan, sizes: seq<nat>)
    requires es > 0
    ensures PlanRun(encrypted, es, false, p, sizes).erased == p.erased
  {
    if sizes != [] { PlanRunFixed(encrypted, es, p, sizes[..|sizes| - 1]); }
  }

  /** The handle took exactly these chunks, with counts `p` before the first. */
  ghost predicate Took(h: OtaHandle, p: Plan, chunks: seq<seq<Byte>>)
    reads h, h.flash, h.partialData
  {
    && h.Valid() && h.Lined() && h.partialBytes < 16 && h.stream == Concat(chunks)
    && h.Counts() == PlanRun(h.encrypted, h.flash.eraseSize, h.needErase, p, Sizes(chunks))
  }

  /** The last chunk is accepted behind those before it. */
  predicate LastOk(kind: Kind, encrypted: bool, es: nat, sequential: bool, p: Plan, chunks: seq<seq<Byte>>, behind: Byte, size: nat)
    requires es > 0 && chunks != []
  {
    var n := |chunks| - 1;
    ChunkOk(kind, encrypted, es, sequential, PlanRun(encrypted, es, sequential, p, Sizes(chunks[..n])), chunks[n], behind, size)
  }

  predicate ChunksOk(kind: Kind, encrypted: bool, es: nat, sequential: bool, p: Plan, chunks: seq<seq<Byte>>, behind: Byte, size: nat)
    requires es > 0
  {
    chunks != [] ==>
      ChunksOk(kind, encrypted, es, sequential, p, chunks[..|chunks| - 1], behind, size)
      && LastOk(kind, encrypted, es, sequential, p, chunks, behind, size)
  }

  /** The first chunk with data, or no data at all. */
  function FirstData(chunks: seq<seq<Byte>>): (d: seq<Byte>)
    ensures d == [] <==> Concat(chunks) == []
  {
    if chunks == [] then []
    else
      var d := FirstData(chunks[..|chunks| - 1]);
      if d != [] then d else chunks[|chunks| - 1]
  }

  lemma PlanWriteGrows(encrypted: bool, es: nat, sequential: bool, p: Plan, n: nat)
    requires es > 0 && (if encrypted then p.wrote % 16 == 0 else p.partial == 0)
    ensures var q := PlanWrite(encrypted, es, sequential, p, n);
            && p.wrote <= q.wrote && p.erased <= q.erased && q.wrote + q.partial == p.wrote + p.partial + n
            && (if encrypted then q.wrote % 16 == 0 else q.partial == 0)
  {}

  lemma {:induction false} PlanRunCounts(encrypted: bool, es: nat, sequential: bool, p: Plan, chunks: seq<seq<Byte>>)
    requires es > 0 && p.wrote == p.partial == 0
    ensures var q := PlanRun(encrypted, es, sequential, p, Sizes(chunks));
            q.wrote + q.partial == |Concat(chunks)| && (if encrypted then q.wrote % 16 == 0 else q.partial == 0)
  {
    if chunks != [] {
      var n := |chunks| - 1;
      PlanRunCounts(encrypted, es, sequential, p, chunks[..n]);
      PlanWriteGrows(encrypted, es, sequential, PlanRun(encrypted, es, sequential, p, Sizes(chunks[..n])), |chunks[n]|);
      assert Sizes(chunks)[..n] == Sizes(chunks[..n]);
    }
  }

  lemma ChunkStep(kind: Kind, encrypted: bool, es: nat, sequential: bool, p: Plan, q: Plan, first: seq<Byte>,
                  data: seq<Byte>, behind: Byte, size: nat)
    requires es > 0 && (if encrypted then p.wrote % 16 == 0 else p.partial == 0)
    requires q == PlanWrite(encrypted, es, sequential, p, |data|) && (first == [] <==> p.wrote + p.partial == 0)
    ensures var d := if first != [] then first else data;
            (p.wrote <= size && p.erased <= size && (first != [] ==> MagicOk(kind, first, behind))
             && ChunkOk(kind, encrypted, es, sequential, p, data, behind, size))
            <==> q.wrote <= size && q.erased <= size && (d != [] ==> MagicOk(kind, d, behind))
  {
    PlanWriteGrows(encrypted, es, sequential, p, |data|);
  }

  /** Reliable flash accepts all chunks exactly when the counts at the end stay in the partition and
      the first data starts with the right bytes. */
  lemma {:induction false} ChunksOkIff(kind: Kind, encrypted: bool, es: nat, sequential: bool, p: Plan,
                                       chunks: seq<seq<Byte>>, behind: Byte, size: nat)
    requires es > 0 && p.wrote == p.partial == 0 && p.erased <= size
    ensures var q := PlanRun(encrypted, es, sequential, p, Sizes(chunks));
            ChunksOk(kind, encrypted, es, sequential, p, chunks, behind, size) <==>
              q.wrote <= size && q.erased <= size && (FirstData(chunks) != [] ==> MagicOk(kind, FirstData(chunks), behind))
  {
    if chunks != [] {
      var n := |chunks| - 1;
      var before := PlanRun(encrypted, es, sequential, p, Sizes(chunks[..n]));
      ChunksOkIff(kind, encrypted, es, sequential, p, chunks[..n], behind, size);
      PlanRunCounts(encrypted, es, sequential, p, chunks[..n]);
      assert Sizes(chunks)[..n] == Sizes(chunks[..n]);
      ChunkStep(kind, encrypted, es, sequential, before, PlanWrite(encrypted, es, sequential, before, |chunks[n]|),
                FirstData(chunks[..n]), chunks[n], behind, size);
    }
  }

  /** The counts when `esp_ota_end` is called. */
  function FinalPlan(size: nat, es: nat, encrypted: bool, imageSize: nat, chunks: seq<seq<Byte>>): Plan
    requires es > 0
  {
    var sequential := imageSize == OTA_WITH_SEQUENTIAL_WRITES;
    PlanRun(encrypted, es, sequential, Plan(0, 0, if sequential then 0 else EraseSize(size, es, imageSize)), Sizes(chunks))
  }

  lemma {:induction false} PlanRunEnd(encrypted: bool, es: nat, sequential: bool, p: Plan, chunks: seq<seq<Byte>>)
    requires es > 0 && p.wrote == p.partial == 0
    ensures var q, n := PlanRun(encrypted, es, sequential, p, Sizes(chunks)), |Concat(chunks)|;
            q.wrote == PlanEnd(encrypted, n) && q.partial == n - q.wrote && (encrypted ==> q.partial < 16)
  {
    if chunks != [] {
      PlanRunEnd(encrypted, es, sequential, p, chunks[..|chunks| - 1]);
      assert Sizes(chunks)[..|chunks| - 1] == Sizes(chunks[..|chunks| - 1]);
    }
  }

  lemma {:induction false} PlanRunTight(encrypted: bool, es: nat, p: Plan, chunks: seq<seq<Byte>>)
    requires es > 0 && p == Plan(0, 0, 0)
    ensures Tight(es, PlanRun(encrypted, es, true, p, Sizes(chunks)))
    ensures !encrypted ==> |Concat(chunks)| <= PlanRun(encrypted, es, true, p, Sizes(chunks)).erased
  {
    if chunks != [] {
      var n := |chunks| - 1;
      PlanRunTight(encrypted, es, p, chunks[..n]);
      PlanRunEnd(encrypted, es, true, p, chunks[..n]);
      assert Sizes(chunks)[..n] == Sizes(chunks[..n]);
      PlanWriteTight(encrypted, es, PlanRun(encrypted, es, true, p, Sizes(chunks[..n])), |chunks[n]|);
    }
  }

  /** The image size is given, and rounding it up to whole sectors does not wrap around. */
  predicate Announced(es: nat, imageSize: nat) {
    imageSize !in {0, OTA_SIZE_UNKNOWN, OTA_WITH_SEQUENTIAL_WRITES} && imageSize + es - 1 < U32
  }

  /** A given size in whole sectors ends with the sector of its last byte. */
  lemma AnnouncedErase(size: nat, es: nat, imageSize: nat)
    requires 0 < es <= U32 && imageSize < U32 && imageSize !in {0, OTA_SIZE_UNKNOWN, OTA_WITH_SEQUENTIAL_WRITES}
    ensures EraseSize(size, es, imageSize) == if Announced(es, imageSize) then SectorEnd(imageSize - 1, es) else 0
    ensures size % es == 0 ==> (EraseSizeOk(size, es, imageSize) <==> !Announced(es, imageSize) || imageSize <= size)
  {
    EraseCoversIff(size, es, imageSize);
    if Announced(es, imageSize) {
      var t := imageSize + es - 1;
      DivUnique(t, 0, t, U32);
      SectorGap(imageSize - 1, imageSize - 1, es);
      SectorEndUnique(imageSize - 1, t / es * es, es);
      if size % es == 0 { SectorEndWithin(imageSize - 1, size, es); }
    }
  }

  lemma SectorEndUnique(a: nat, x: nat, es: nat)
    requires es > 0 && a + es == x + (a + es) % es
    ensures x == SectorEnd(a, es)
  {
    var q := a / es;
    assert a == q * es + a % es && (q + 1) * es == q * es + es;
    DivUnique(a + es, q + 1, a % es, es);
  }

  lemma CountsFit(encrypted: bool, size: nat, n: nat, q: Plan)
    requires size % 16 == 0 && q.wrote == PlanEnd(encrypted, n) && q.partial == n - q.wrote
    ensures q.wrote <= size && EndOk(q, size) <==> (if encrypted then 16 else 1) <= n <= size
  {
    if encrypted { Apart(q.wrote, size, 16); }
  }

  lemma EraseFits(size: nat, es: nat, encrypted: bool, imageSize: nat, chunks: seq<seq<Byte>>)
    requires 0 < es <= U32 && size % es == 0 && imageSize < U32 && |Concat(chunks)| <= size
    ensures var q := FinalPlan(size, es, encrypted, imageSize, chunks);
            (imageSize == OTA_WITH_SEQUENTIAL_WRITES || EraseSizeOk(size, es, imageSize)) && q.erased <= size
            <==> (Announced(es, imageSize) ==> imageSize <= size)
  {
    var p := Plan(0, 0, if imageSize == OTA_WITH_SEQUENTIAL_WRITES then 0 else EraseSize(size, es, imageSize));
    if imageSize == OTA_WITH_SEQUENTIAL_WRITES {
      PlanRunTight(encrypted, es, p, chunks);
      PlanRunEnd(encrypted, es, true, p, chunks);
      if |Concat(chunks)| > 0 { SectorEndWithin(|Concat(chunks)| - 1, size, es); }
    } else {
      PlanRunFixed(encrypted, es, p, Sizes(chunks));
      if imageSize !in {0, OTA_SIZE_UNKNOWN} { AnnouncedErase(size, es, imageSize); }
    }
  }

  /** When the final counts are acceptable, on a partition of whole sectors. */
  lemma FinalFits(size: nat, es: nat, encrypted: bool, imageSize: nat, chunks: seq<seq<Byte>>)
    requires 0 < es <= U32 && es % 16 == 0 && size % es == 0 && imageSize < U32
    ensures var q, n := FinalPlan(size, es, encrypted, imageSize, chunks), |Concat(chunks)|;
            (imageSize == OTA_WITH_SEQUENTIAL_WRITES || EraseSizeOk(size, es, imageSize))
            && q.wrote <= size && q.erased <= size && EndOk(q, size)
            <==> (if encrypted then 16 else 1) <= n <= size && (Announced(es, imageSize) ==> imageSize <= size)
  {
    var sequential := imageSize == OTA_WITH_SEQUENTIAL_WRITES;
    SixteenDivides(size, es);
    PlanRunEnd(encrypted, es, sequential, Plan(0, 0, if sequential then 0 else EraseSize(size, es, imageSize)), chunks);
    CountsFit(encrypted, size, |Concat(chunks)|, FinalPlan(size, es, encrypted, imageSize, chunks));
    if |Concat(chunks)| <= size { EraseFits(size, es, encrypted, imageSize, chunks); }
  }

  /** Which images end inside the erased part. */
  lemma FinalCovers(size: nat, es: nat, encrypted: bool, imageSize: nat, chunks: seq<seq<Byte>>)
    requires 0 < es <= U32 && imageSize < U32
    ensures var e, n := FinalPlan(size, es, encrypted, imageSize, chunks).erased, |Concat(chunks)|;
            && (imageSize == 0 || imageSize == OTA_SIZE_UNKNOWN ==> (n <= e <==> n <= size))
            && (Announced(es, imageSize) ==> (n <= e <==> n <= SectorEnd(imageSize - 1, es)))
            && (imageSize == OTA_WITH_SEQUENTIAL_WRITES && !encrypted ==> n <= e)
            && (imageSize !in {0, OTA_SIZE_UNKNOWN, OTA_WITH_SEQUENTIAL_WRITES} && !Announced(es, imageSize) ==> e == 0)
  {
    if imageSize == OTA_WITH_SEQUENTIAL_WRITES {
      PlanRunTight(encrypted, es, Plan(0, 0, 0), chunks);
    } else {
      PlanRunFixed(encrypted, es, Plan(0, 0, EraseSize(size, es, imageSize)), Sizes(chunks));
      if imageSize !in {0, OTA_SIZE_UNKNOWN} { AnnouncedErase(size, es, imageSize); }
    }
  }

  method WriteLast(h: OtaHandle, ghost p: Plan, chunks: seq<seq<Byte>>, behind: Byte) returns (res: Result)
    requires chunks != [] && Took(h, p, chunks[..|chunks| - 1]) && |Concat(chunks)| < U32
    modifies h`wroteSize, h`partialBytes, h`stream, h`erased, h`cover, h.partialData, h.flash`cells
    ensures h.Valid() && |h.flash.cells| == old(|h.flash.cells|)
    ensures res.Ok? ==> Took(h, p, chunks)
    ensures h.flash.reliable ==>
              (res.Ok? <==> LastOk(h.kind, h.encrypted, h.flash.eraseSize, h.needErase, p, chunks, behind, |h.flash.cells|))
  {
    ghost var sizes, n := Sizes(chunks[..|chunks| - 1]), |chunks[|chunks| - 1]|;
    assert Sizes(chunks) == sizes + [n];
    PlanRunNext(h.encrypted, h.flash.eraseSize, h.needErase, p, sizes, n);
    ghost var e;
    res, e := h.WriteChunk(chunks[|chunks| - 1], behind);
  }

  /** One write per chunk on a new handle, up to the first that fails. */
  method WriteAll(h: OtaHandle, chunks: seq<seq<Byte>>, behind: Byte) returns (res: Result)
    requires h.Valid() && h.Lined() && h.stream == [] && |Concat(chunks)| < U32
    modifies h`wroteSize, h`partialBytes, h`stream, h`erased, h`cover, h.partialData, h.flash`cells
    ensures h.Valid() && |h.flash.cells| == old(|h.flash.cells|)
    ensures res.Ok? ==> Took(h, old(h.Counts()), chunks)
    ensures h.flash.reliable ==>
              (res.Ok? <==> ChunksOk(h.kind, h.encrypted, h.flash.eraseSize, h.needErase, old(h.Counts()), chunks, behind, |h.flash.cells|))
    decreases |chunks|
  {
    ghost var p := h.Counts();
    if chunks == [] { return Ok; }
    res := WriteAll(h, chunks[..|chunks| - 1], behind);
    if res.Ok? { res := WriteLast(h, p, chunks, behind); }
  }

  /** The first data of an image, if any, starts with the bytes of its kind: 0xE9, or 0xAA and 0x50
      for a partition table. */
  ghost predicate StartsRight(kind: Kind, image: seq<Byte>, chunks: seq<seq<Byte>>, behind: Byte) {
    image != [] ==>
      && (kind.App? || kind.Bootloader? ==> image[0] == 0xE9)
      && (kind.PartitionTable? ==> image[0] == 0xAA && (if |image| < 2 || |FirstData(chunks)| == 1 then behind else image[1]) == 0x50)
  }

  lemma {:induction false} FirstDataIs(chunks: seq<seq<Byte>>)
    ensures FirstData(chunks) <= Concat(chunks)
    ensures FirstData(chunks) != [] ==>
              exists k :: 0 <= k < |chunks| && chunks[k] == FirstData(chunks) && forall j :: 0 <= j < k ==> chunks[j] == []
  {
    if chunks != [] {
      var n := |chunks| - 1;
      FirstDataIs(chunks[..n]);
      if FirstData(chunks[..n]) != [] {
        var k :| 0 <= k < n && chunks[..n][k] == FirstData(chunks[..n]) && forall j :: 0 <= j < k ==> chunks[..n][j] == [];
        assert chunks[k] == FirstData(chunks);
      } else {
        AllEmpty(chunks[..n]);
        assert chunks[n] == FirstData(chunks);
      }
    }
  }

  lemma {:induction false} AllEmpty(chunks: seq<seq<Byte>>)
    requires Concat(chunks) == []
    ensures forall j :: 0 <= j < |chunks| ==> chunks[j] == []
  {
    if chunks != [] { AllEmpty(chunks[..|chunks| - 1]); }
  }

  lemma StartsRightIff(kind: Kind, chunks: seq<seq<Byte>>, behind: Byte)
    ensures (FirstData(chunks) != [] ==> MagicOk(kind, FirstData(chunks), behind))
            <==> StartsRight(kind, Concat(chunks), chunks, behind)
  {
    FirstDataIs(chunks);
  }

  /** Begin, one write per chunk, end, in terms of the final counts. */
  method RunUpdate(size: nat, es: nat, encrypted: bool, kind: Kind, imageSize: nat, chunks: seq<seq<Byte>>, behind: Byte,
                   verified: bool, reliable: bool)
    returns (res: Result, cells: seq<Cell>)
    requires es > 0 && es % 16 == 0 && imageSize < U32 && |Concat(chunks)| < U32
    ensures |cells| == size
    ensures res.Ok? ==> |Concat(chunks)| <= size
    ensures res.Ok? ==>
              (Stored(cells, Concat(chunks)) <==> |Concat(chunks)| <= FinalPlan(size, es, encrypted, imageSize, chunks).erased)
    ensures var q := FinalPlan(size, es, encrypted, imageSize, chunks);
            reliable ==>
              (res.Ok? <==>
               && verified && (imageSize == OTA_WITH_SEQUENTIAL_WRITES || EraseSizeOk(size, es, imageSize))
               && q.wrote <= size && q.erased <= size && EndOk(q, size)
               && (FirstData(chunks) != [] ==> MagicOk(kind, FirstData(chunks), behind)))
  {
    var flash := new Flash(size, es, if encrypted then 16 else 1, reliable);
    var h := new OtaHandle(flash, imageSize, encrypted, kind);
    res := h.Begin(imageSize);
    if res.Ok? {
      ghost var p := h.Counts();
      PlanRunFixed(encrypted, es, p, Sizes(chunks));
      ChunksOkIff(kind, encrypted, es, h.needErase, p, chunks, behind, size);
      res := WriteAll(h, chunks, behind);
      if res.Ok? {
        if |h.stream| <= size { UptoCoversIff(size, h.erased, |h.stream|); }
        res := h.End(verified);
      }
    }
    cells := flash.cells;
  }

  /** A whole update over a partition of unknown content: begin, one write per chunk, end.  When it
      succeeds, the image given can be read back exactly when the erased part covers it: always when
      the size is unknown, up to the end of the last sector announced when it is given, and always
      with lazy erase unless flash encryption leaves the last block behind.  On reliable flash it
      succeeds exactly when the image verifies, starts with the right bytes, holds something to put
      in flash and fits the partition, and so does the size announced. */
  method Update(size: nat, es: nat, encrypted: bool, kind: Kind, imageSize: nat, chunks: seq<seq<Byte>>, behind: Byte,
                verified: bool, reliable: bool)
    returns (res: Result, cells: seq<Cell>)
    requires 0 < es <= U32 && es % 16 == 0 && imageSize < U32 && |Concat(chunks)| < U32
    ensures |cells| == size
    ensures res.Ok? ==>
              (Stored(cells, Concat(chunks)) <==> |Concat(chunks)| <= FinalPlan(size, es, encrypted, imageSize, chunks).erased)
    ensures res.Ok? && (imageSize == 0 || imageSize == 0xFFFF_FFFF) ==> Stored(cells, Concat(chunks))
    ensures res.Ok? && Announced(es, imageSize) ==>
              (Stored(cells, Concat(chunks)) <==> |Concat(chunks)| <= SectorEnd(imageSize - 1, es))
    ensures res.Ok? && imageSize == 0xFFFF_FFFE && !encrypted ==> Stored(cells, Concat(chunks))
    ensures var q := FinalPlan(size, es, encrypted, imageSize, chunks);
            reliable ==>
              (res.Ok? <==>
               && verified && (imageSize == OTA_WITH_SEQUENTIAL_WRITES || EraseSizeOk(size, es, imageSize))
               && q.wrote <= size && q.erased <= size && EndOk(q, size)
               && StartsRight(kind, Concat(chunks), chunks, behind))
    ensures reliable && size % es == 0 ==>
              (res.Ok? <==>
               && verified && (if encrypted then 16 else 1) <= |Concat(chunks)| <= size
               && (Announced(es, imageSize) ==> imageSize <= size)
               && StartsRight(kind, Concat(chunks), chunks, behind))
  {
    StartsRightIff(kind, chunks, behind);
    FinalCovers(size, es, encrypted, imageSize, chunks);
    if size % es == 0 { FinalFits(size, es, encrypted, imageSize, chunks); }
    res, cells := RunUpdate(size, es, encrypted, kind, imageSize, chunks, behind, verified, reliable);
  }

  /** Near 2^32 nothing is erased up front, so no part of the image is right in flash. */
  lemma HugeImageNotStored(size: nat, encrypted: bool, chunks: seq<seq<Byte>>)
    ensures FinalPlan(size, 4096, encrypted, 0xFFFF_F001, chunks).erased == 0
  {
    HugeImageErasesNothing(size);
    PlanRunFixed(encrypted, 4096, Plan(0, 0, 0), Sizes(chunks));
  }

  // ------------------------------------------------------------------ sessions with failures

  /** Every outcome belongs to its chunk. */
  predicate Matches(chunks: seq<seq<Byte>>, events: seq<Event>) {
    |events| == |chunks| && forall k :: 0 <= k < |events| ==> events[k].NotErased? || events[k].n == |chunks[k]|
  }

  /** What a whole session adds to the bytes held. */
  function KeptAll(encrypted: bool, es: nat, sequential: bool, p: Plan, chunks: seq<seq<Byte>>, events: seq<Event>): seq<Byte>
    requires es > 0 && Matches(chunks, events) && AllPossible(encrypted, es, sequential, p, events)
    decreases |events|
  {
    if events == [] then []
    else
      var n := |events| - 1;
      KeptAll(encrypted, es, sequential, p, chunks[..n], events[..n])
      + Kept(PlanEvents(encrypted, es, sequential, p, events[..n]).partial, chunks[n], events[n])
  }

  lemma KeptNext(encrypted: bool, es: nat, sequential: bool, p: Plan, chunks: seq<seq<Byte>>, events: seq<Event>,
                 data: seq<Byte>, e: Event, s: seq<Byte>)
    requires es > 0 && Matches(chunks, events) && AllPossible(encrypted, es, sequential, p, events)
    requires e.NotErased? || e.n == |data|
    requires Possible(encrypted, PlanEvents(encrypted, es, sequential, p, events), e)
    ensures Matches(chunks + [data], events + [e]) && AllPossible(encrypted, es, sequential, p, events + [e])
    ensures s + KeptAll(encrypted, es, sequential, p, chunks + [data], events + [e])
            == s + KeptAll(encrypted, es, sequential, p, chunks, events)
               + Kept(PlanEvents(encrypted, es, sequential, p, events).partial, data, e)
  {
    EventsNext(encrypted, es, sequential, p, events, e);
    assert (events + [e])[..|events|] == events && (chunks + [data])[..|chunks|] == chunks;
  }

  /** How an outcome changes the sizes does not depend on the end of the erased part. */
  lemma SizesOnly(encrypted: bool, es: nat, sequential: bool, p: Plan, q: Plan, e: Event)
    requires es > 0 && p.wrote == q.wrote && p.partial == q.partial && Possible(encrypted, p, e)
    ensures Possible(encrypted, q, e)
    ensures PlanEvent(encrypted, es, sequential, p, e).(erased := 0) == PlanEvent(encrypted, es, sequential, q, e).(erased := 0)
  {}

  /** The handle after a session that began with counts `p` and stream `s`. */
  ghost predicate Ran(h: OtaHandle, p: Plan, s: seq<Byte>, chunks: seq<seq<Byte>>, events: seq<Event>)
    requires h.flash.eraseSize > 0
    reads h, h.flash, h.partialData
  {
    && h.Valid() && Matches(chunks, events) && AllPossible(h.encrypted, h.flash.eraseSize, h.needErase, p, events)
    && h.stream == s + KeptAll(h.encrypted, h.flash.eraseSize, h.needErase, p, chunks, events)
    && var q := PlanEvents(h.encrypted, h.flash.eraseSize, h.needErase, p, events);
       && h.wroteSize == q.wrote && h.partialBytes == q.partial
       && (NoneRisky(h.encrypted, h.flash.eraseSize, h.needErase, p, events) ==> h.Lined() && h.Counts() == q)
  }

  method SessionStep(h: OtaHandle, ghost p: Plan, ghost s: seq<Byte>, ghost chunks: seq<seq<Byte>>, ghost events: seq<Event>,
                     data: seq<Byte>, behind: Byte) returns (res: Result, ghost e: Event)
    requires h.flash.eraseSize > 0 && Ran(h, p, s, chunks, events) && h.wroteSize + |data| < U32
    modifies h`wroteSize, h`partialBytes, h`stream, h`erased, h`cover, h.partialData, h.flash`cells
    ensures Ran(h, p, s, chunks + [data], events + [e]) && (res.Ok? <==> e.Accepted?)
    ensures |h.stream| <= old(|h.stream|) + |data|
  {
    ghost var q := h.Counts();
    res, e := h.WriteChunk(data, behind);
    SizesOnly(h.encrypted, h.flash.eraseSize, h.needErase, q,
              PlanEvents(h.encrypted, h.flash.eraseSize, h.needErase, p, events), e);
    KeptNext(h.encrypted, h.flash.eraseSize, h.needErase, p, chunks, events, data, e, s);
    EventsNext(h.encrypted, h.flash.eraseSize, h.needErase, p, events, e);
  }

  /** Writes on a handle in any mix of successes and failures, each call made whatever the one before
      returned.  The bytes held are those before and what each write kept, and with no risky write
      everything in flash lies in the erased part.  `behind` holds the byte behind each chunk. */
  method Session(h: OtaHandle, chunks: seq<seq<Byte>>, behind: seq<Byte>) returns (results: seq<Result>, ghost events: seq<Event>)
    requires h.Valid() && h.Lined() && |behind| == |chunks| && |h.stream| + |Concat(chunks)| < U32
    modifies h`wroteSize, h`partialBytes, h`stream, h`erased, h`cover, h.partialData, h.flash`cells
    ensures Ran(h, old(h.Counts()), old(h.stream), chunks, events)
    ensures h.Valid() && h.stream
            == old(h.stream) + KeptAll(h.encrypted, h.flash.eraseSize, h.needErase, old(h.Counts()), chunks, events)
    ensures NoneRisky(h.encrypted, h.flash.eraseSize, h.needErase, old(h.Counts()), events) ==> h.Lined()
    ensures |results| == |chunks| && forall k :: 0 <= k < |chunks| ==> (results[k].Ok? <==> events[k].Accepted?)
  {
    ghost var p, s := h.Counts(), h.stream;
    results, events := [], [];
    assert s + [] == s;
    for k := 0 to |chunks|
      invariant Ran(h, p, s, chunks[..k], events) && |results| == k
      invariant forall i :: 0 <= i < k ==> (results[i].Ok? <==> events[i].Accepted?)
      invariant |h.stream| <= |s| + |Concat(chunks[..k])|
    {
      assert chunks[..k + 1] == chunks[..k] + [chunks[k]];
      ConcatAppend(chunks[..k], chunks[k]);
      ConcatPrefix(chunks, k + 1);
      var res;
      ghost var e;
      res, e := SessionStep(h, p, s, chunks[..k], events, chunks[k], behind[k]);
      results, events := results + [res], events + [e];
    }
    assert chunks[..|chunks|] == chunks;
  }

  lemma {:induction false} ConcatPrefix(chunks: seq<seq<Byte>>, k: nat)
    requires k <= |chunks|
    ensures |Concat(chunks[..k])| <= |Concat(chunks)|
    decreases |chunks|
  {
    if k < |chunks| {
      ConcatPrefix(chunks[..|chunks| - 1], k);
      assert chunks[..|chunks| - 1][..k] == chunks[..k];
    } else {
      assert chunks[..k] == chunks;
    }
  }
}
