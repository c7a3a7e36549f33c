/** The byte counts of an OTA handle: what each call writes to flash, caches and erases, in sizes
    only, over every mix of successful and failed writes. */
module OtaPlan {
  import opened Arithmetic
  import opened Basics

  const OTA_SIZE_UNKNOWN: nat := 0xffff_ffff
  const OTA_WITH_SEQUENTIAL_WRITES: nat := 0xffff_fffe

  function Max(a: nat, b: nat): nat { if a >= b then a else b }

  // ------------------------------------------------------------------ the up-front erase

  /** 32-bit rounding up to a multiple of `align`, a power of two; near 2^32 the sum wraps around. */
  function AlignUp(n: nat, align: nat): nat
    requires align > 0
  {
    var t := (n + align - 1) % U32;
    MulMono(0, t / align, align);
    t / align * align
  }

  /** What is erased up front: the whole partition, or the image size in whole sectors. */
  function EraseSize(size: nat, es: nat, imageSize: nat): nat
    requires es > 0
  {
    if imageSize == 0 || imageSize == OTA_SIZE_UNKNOWN then size else AlignUp(imageSize, es)
  }

  /** The up-front erase is possible. */
  predicate EraseSizeOk(size: nat, es: nat, imageSize: nat)
    requires es > 0
  {
    if imageSize == 0 || imageSize == OTA_SIZE_UNKNOWN then size % es == 0 else AlignUp(imageSize, es) <= size
  }

  /** The up-front erase covers the image exactly when rounding its size up stays below 2^32;
      otherwise nothing is erased, and that succeeds on any partition. */
  lemma EraseCoversIff(size: nat, es: nat, imageSize: nat)
    requires 0 < es <= U32 && 0 < imageSize < U32 && imageSize != OTA_SIZE_UNKNOWN
    ensures imageSize <= EraseSize(size, es, imageSize) <==> imageSize + es - 1 < U32
    ensures imageSize + es - 1 >= U32 ==> EraseSize(size, es, imageSize) == 0 && EraseSizeOk(size, es, imageSize)
  {
    var t := imageSize + es - 1;
    if t < U32 {
      DivUnique(t, 0, t, U32);
      assert t == t / es * es + t % es;
    } else {
      DivUnique(t, 1, t - U32, U32);
      DivUnique(t - U32, 0, t - U32, es);
    }
  }

  /** An image size for which nothing is erased. */
  lemma HugeImageErasesNothing(size: nat)
    ensures EraseSize(size, 4096, 0xFFFF_F001) == 0 && EraseSizeOk(size, 4096, 0xFFFF_F001)
  {
    EraseCoversIff(size, 4096, 0xFFFF_F001);
  }

  // ------------------------------------------------------------------ sizes only

  /** The end of the sector that holds offset `a`. */
  function SectorEnd(a: nat, es: nat): (x: nat)
    requires es > 0
    ensures a < x <= a + es && x % es == 0
  {
    assert a == a / es * es + a % es;
    assert (a / es + 1) * es == a / es * es + es;
    Multiple(a / es + 1, es);
    (a / es + 1) * es
  }

  /** The whole 16-byte blocks among `t` bytes. */
  function Whole(t: nat): (w: nat)
    ensures w <= t < w + 16 && w % 16 == 0 && t - w == t % 16
  {
    t / 16 * 16
  }

  /** How many of `t` bytes are in flash. */
  function PlanEnd(encrypted: bool, t: nat): nat { if encrypted then Whole(t) else t }

  /** Byte counts of a handle: written, cached, and the end of the erased part. */
  datatype Plan = Plan(wrote: nat, partial: nat, erased: nat)

  /** The end of the erased part behind the lazy erase before a write of `n` bytes. */
  function PlanErased(es: nat, sequential: bool, p: Plan, n: nat): nat
    requires es > 0 && n > 0
  {
    if sequential then Max(p.erased, SectorEnd(p.wrote + n - 1, es)) else p.erased
  }

  /** What one successful write of `n` bytes does to the counts. */
  function PlanWrite(encrypted: bool, es: nat, sequential: bool, p: Plan, n: nat): Plan
    requires es > 0
  {
    if n == 0 then p
    else
      var erased := PlanErased(es, sequential, p, n);
      var total := p.wrote + p.partial + n;
      if encrypted then Plan(Whole(total), total - Whole(total), erased) else Plan(total, 0, erased)
  }

  /** Counts in which everything in flash lies in the erased part. */
  ghost predicate PlanOk(encrypted: bool, es: nat, sequential: bool, p: Plan) {
    && es > 0 && es % 16 == 0
    && (if encrypted then p.wrote % 16 == 0 && p.partial <= 16 else p.partial == 0)
    && p.erased % es == 0
    && (sequential ==> p.wrote <= p.erased)
  }

  lemma SixteenDivides(x: nat, es: nat)
    requires es > 0 && es % 16 == 0 && x % es == 0
    ensures x % 16 == 0
  {
    var q, e := x / es, es / 16;
    assert x == q * es;
    assert q * (e * 16) == q * e * 16;
    Multiple(q * e, 16);
  }

  /** Multiples of `k` are at least `k` apart. */
  lemma Apart(x: nat, y: nat, k: nat)
    requires k > 0 && x % k == 0 && y % k == 0
    ensures x < y ==> x + k <= y
  {
    SameRemainder(x, y, k);
  }

  /** Up to 15 bytes more do not complete a block past a block border. */
  lemma RoundDown(t: nat, x: nat)
    requires x % 16 == 0 && t <= x + 15
    ensures Whole(t) <= x
  {}

  lemma SectorGap(a: nat, b: nat, es: nat)
    requires es > 0 && a <= b
    ensures a / es <= b / es
    ensures a / es * es <= a
    ensures SectorEnd(a, es) + (b / es - a / es) * es == SectorEnd(b, es)
    ensures a / es * es + (b / es - a / es + 1) * es == SectorEnd(b, es)
  {
    var i, j := a / es, b / es;
    assert a == i * es + a % es && b == j * es + b % es;
    MulMono(j + 1, i, es);
    assert (j + 1) * es == j * es + es && (i + 1) * es == i * es + es;
    assert (j - i) * es == j * es - i * es;
    assert (j - i + 1) * es == (j - i) * es + es;
  }

  lemma SectorEndWithin(a: nat, y: nat, es: nat)
    requires es > 0 && y % es == 0
    ensures a < y ==> SectorEnd(a, es) <= y
  {
    Apart(y, SectorEnd(a, es), es);
  }

  /** The one write after which flash holds bytes outside the erased part: the cache still holds a
      whole block, whose write failed before, and the data is a multiple of 16 bytes that ends on a
      sector border not behind the erased part. */
  predicate Risky(encrypted: bool, es: nat, sequential: bool, p: Plan, n: nat)
    requires es > 0
  {
    encrypted && sequential && p.partial == 16 && n > 0 && n % 16 == 0 && (p.wrote + n) % es == 0 && p.erased <= p.wrote + n
  }

  lemma BlocksBelow(a: nat, n: nat, x: nat)
    requires a % 16 == 0 && x % 16 == 0
    ensures a + n < x ==> a + Whole(n) + 16 <= x
  {
    var w := Whole(n);
    assert (a + w) % 16 == 0;
    Apart(a + w, x, 16);
  }

  /** The end of the sector of the last byte given is a block border at or behind that byte. */
  lemma SectorEndBlocks(wrote: nat, n: nat, es: nat)
    requires es > 0 && es % 16 == 0 && n > 0 && wrote % 16 == 0
    ensures var x := SectorEnd(wrote + n - 1, es);
            && x % 16 == 0 && wrote + n <= x && (wrote + n == x <==> (wrote + n) % es == 0)
            && (wrote + n < x ==> wrote + Whole(n) + 16 <= x)
  {
    var x := SectorEnd(wrote + n - 1, es);
    SixteenDivides(x, es);
    if (wrote + n) % es == 0 { SectorEndWithin(wrote + n - 1, wrote + n, es); }
    BlocksBelow(wrote, n, x);
  }

  lemma FullCacheWrite(p: Plan, n: nat)
    requires p.wrote % 16 == 0 && p.partial == 16
    ensures Whole(p.wrote + p.partial + n) == p.wrote + 16 + Whole(n)
  {}

  lemma FullCacheCases(wrote: nat, n: nat, w: nat, x: nat, erased: nat)
    requires w <= n < w + 16 && wrote + n <= x
    requires wrote + n < x ==> wrote + w + 16 <= x
    requires wrote + w < x ==> wrote + w + 16 <= x
    requires wrote + w < erased ==> wrote + w + 16 <= erased
    ensures wrote + 16 + w <= Max(erased, x) <==> !(w == n && wrote + n == x && erased <= wrote + n)
  {}

  lemma FullCacheSafeIff(es: nat, p: Plan, n: nat)
    requires PlanOk(true, es, true, p) && p.partial == 16 && n > 0
    ensures p.wrote + 16 + Whole(n) <= PlanErased(es, true, p, n) <==> !Risky(true, es, true, p, n)
  {
    var x, w := SectorEnd(p.wrote + n - 1, es), Whole(n);
    SectorEndBlocks(p.wrote, n, es);
    SixteenDivides(p.erased, es);
    ModShift(p.wrote, w / 16, 16);
    Apart(p.wrote + w, p.erased, 16);
    Apart(p.wrote + w, x, 16);
    FullCacheCases(p.wrote, n, w, x, p.erased);
  }

  lemma PartCacheSafe(es: nat, p: Plan, n: nat)
    requires PlanOk(true, es, true, p) && p.partial < 16 && n > 0
    ensures Whole(p.wrote + p.partial + n) <= PlanErased(es, true, p, n)
  {
    SectorEndBlocks(p.wrote, n, es);
    RoundDown(p.wrote + p.partial + n, SectorEnd(p.wrote + n - 1, es));
  }

  /** The sector arithmetic leaves out the cached bytes, and still the part erased covers what a
      write puts in flash, exactly unless the write is risky. */
  lemma PlanWriteOkIff(encrypted: bool, es: nat, sequential: bool, p: Plan, n: nat)
    requires PlanOk(encrypted, es, sequential, p)
    ensures PlanOk(encrypted, es, sequential, PlanWrite(encrypted, es, sequential, p, n))
            <==> !Risky(encrypted, es, sequential, p, n)
  {
    if n > 0 && sequential {
      SectorEndBlocks(if encrypted then p.wrote else 0, n, es);
      if encrypted {
        if p.partial == 16 {
          FullCacheWrite(p, n);
          FullCacheSafeIff(es, p, n);
        } else {
          PartCacheSafe(es, p, n);
        }
      }
    }
  }

  /** Offset and length of the erase before a write of `n` bytes; empty when the write stays in a
      sector that was begun before.  It ends with the sector of the last byte given. */
  function EraseSpan(es: nat, wrote: nat, n: nat): (r: (nat, nat))
    requires es > 0 && n > 0
    ensures r.0 == (if wrote % es == 0 then wrote else SectorEnd(wrote, es))
    ensures r.0 + r.1 == SectorEnd(wrote + n - 1, es)
    ensures r.0 % es == 0 && r.1 % es == 0
  {
    SectorGap(wrote, wrote + n - 1, es);
    assert wrote == wrote / es * es + wrote % es;
    var first, last := wrote / es, (wrote + n - 1) / es;
    Multiple(last - first + 1, es);
    Multiple(last - first, es);
    if wrote % es == 0 then (wrote, (last - first + 1) * es)
    else (SectorEnd(wrote, es), (last - first) * es)
  }

  /** The erase starts at or behind the write offset, inside or right behind the part that is erased
      already: it touches no written byte and leaves no gap. */
  lemma EraseSpanOk(es: nat, p: Plan, n: nat)
    requires es > 0 && p.erased % es == 0 && p.wrote <= p.erased && n > 0
    ensures p.wrote <= EraseSpan(es, p.wrote, n).0 <= p.erased
  {
    SectorEndWithin(p.wrote, p.erased, es);
  }

  function PlanRun(encrypted: bool, es: nat, sequential: bool, p: Plan, sizes: seq<nat>): Plan
    requires es > 0
  {
    if sizes == [] then p
    else PlanWrite(encrypted, es, sequential, PlanRun(encrypted, es, sequential, p, sizes[..|sizes| - 1]), sizes[|sizes| - 1])
  }

  function Sum(sizes: seq<nat>): nat {
    if sizes == [] then 0 else Sum(sizes[..|sizes| - 1]) + sizes[|sizes| - 1]
  }

  /** With sequential erase, no byte is erased beyond the sector of the last byte given. */
  ghost predicate Tight(es: nat, p: Plan)
    requires es > 0
  {
    p.erased <= if p.wrote + p.partial == 0 then 0 else SectorEnd(p.wrote + p.partial - 1, es)
  }

  lemma SectorEndMono(a: nat, b: nat, es: nat)
    requires es > 0 && a <= b
    ensures SectorEnd(a, es) <= SectorEnd(b, es)
  {
    SectorEndWithin(a, SectorEnd(b, es), es);
  }

  /** No sector is erased before the data reaches it. */
  lemma PlanWriteTight(encrypted: bool, es: nat, q: Plan, n: nat)
    requires es > 0 && Tight(es, q)
    ensures Tight(es, PlanWrite(encrypted, es, true, q, n))
    ensures var p := PlanWrite(encrypted, es, true, q, n); p.wrote + p.partial == q.wrote + q.partial + n
  {
    if n > 0 {
      var t := q.wrote + q.partial + n;
      SectorEndMono(q.wrote + n - 1, t - 1, es);
      if q.wrote + q.partial > 0 { SectorEndMono(q.wrote + q.partial - 1, t - 1, es); }
    }
  }

  /** Counts over any run of writes: well formed, tight, and adding up to what was given. */
  lemma {:induction false} PlanRunOk(encrypted: bool, es: nat, sizes: seq<nat>)
    requires es > 0 && es % 16 == 0
    ensures var p := PlanRun(encrypted, es, true, Plan(0, 0, 0), sizes);
            PlanOk(encrypted, es, true, p) && p.partial < 16 && Tight(es, p) && p.wrote + p.partial == Sum(sizes)
  {
    if sizes != [] {
      var n, rest := sizes[|sizes| - 1], sizes[..|sizes| - 1];
      PlanRunOk(encrypted, es, rest);
      var q := PlanRun(encrypted, es, true, Plan(0, 0, 0), rest);
      PlanWriteOkIff(encrypted, es, true, q, n);
      PlanWriteTight(encrypted, es, q, n);
    }
  }

  /** Exactly when the whole stream, with the padded last block that is written at the end, lies in
      erased sectors: it does unless bytes are cached and the bytes in flash end at a sector border
      that the last non-empty write reached only together with the bytes cached before it. */
  lemma TailErasedIff(es: nat, sizes: seq<nat>, n: nat)
    requires es > 0 && es % 16 == 0 && n > 0
    ensures var q := PlanRun(true, es, true, Plan(0, 0, 0), sizes);
            var p := PlanWrite(true, es, true, q, n);
            Sum(sizes) + n <= p.erased <==> p.partial == 0 || p.wrote % es != 0 || q.wrote + n > p.wrote
  {
    PlanRunOk(true, es, sizes);
    var q := PlanRun(true, es, true, Plan(0, 0, 0), sizes);
    var p := PlanWrite(true, es, true, q, n);
    PlanWriteOkIff(true, es, true, q, n);
    SixteenDivides(p.erased, es);
    Apart(p.wrote, p.erased, 16);
    if p.wrote % es == 0 && q.wrote + n <= p.wrote {
      SectorEndWithin(q.wrote + n - 1, p.wrote, es);
      Apart(q.wrote, p.wrote, 16);
      if q.wrote + q.partial > 0 { SectorEndWithin(q.wrote + q.partial - 1, p.wrote, es); }
    }
  }

  lemma PlanRunNext(encrypted: bool, es: nat, sequential: bool, p: Plan, sizes: seq<nat>, n: nat)
    requires es > 0
    ensures PlanRun(encrypted, es, sequential, p, sizes + [n])
            == PlanWrite(encrypted, es, sequential, PlanRun(encrypted, es, sequential, p, sizes), n)
  {
    assert (sizes + [n])[..|sizes|] == sizes;
  }

  lemma SumNext(sizes: seq<nat>, n: nat)
    ensures Sum(sizes + [n]) == Sum(sizes) + n
  {
    assert (sizes + [n])[..|sizes|] == sizes;
  }

  lemma TwoWrites(es: nat, n: nat, m: nat)
    requires es > 0
    ensures PlanRun(true, es, true, Plan(0, 0, 0), [n, m])
            == PlanWrite(true, es, true, PlanWrite(true, es, true, Plan(0, 0, 0), n), m)
    ensures Sum([n, m]) == n + m
  {
    var none: seq<nat>, one := [], [n];
    PlanRunNext(true, es, true, Plan(0, 0, 0), none, n);
    PlanRunNext(true, es, true, Plan(0, 0, 0), one, m);
    assert none + [n] == one && one + [m] == [n, m];
    SumNext(none, n);
    SumNext(one, m);
  }

  lemma WriteInFirstSector(es: nat, p: Plan, n: nat, w: nat)
    requires 0 < es && 0 < n && p.wrote + n <= es && w % 16 == 0 && w <= p.wrote + p.partial + n < w + 16
    ensures PlanErased(es, true, p, n) == Max(p.erased, es)
    ensures PlanWrite(true, es, true, p, n) == Plan(w, p.wrote + p.partial + n - w, Max(p.erased, es))
  {
    var a := p.wrote + n - 1;
    DivUnique(a, 0, a, es);
    Apart(w, Whole(p.wrote + p.partial + n), 16);
    Apart(Whole(p.wrote + p.partial + n), w, 16);
  }

  /** Two writes after which the padded block lands in a sector that was never erased. */
  lemma TailNotErased(es: nat, n: nat, m: nat)
    requires es == 4096 && n == 15 && m == 4096
    ensures var p := PlanRun(true, es, true, Plan(0, 0, 0), [n, m]);
            p == Plan(4096, 15, 4096) && Sum([n, m]) > p.erased
  {
    TwoWrites(es, n, m);
    WriteInFirstSector(es, Plan(0, 0, 0), n, 0);
    WriteInFirstSector(es, Plan(0, 15, es), m, 4096);
  }

  // ------------------------------------------------------------------ every mix of outcomes

  /** How one write of `n` bytes ends: accepted; the erase failed; refused behind the erase without
      consuming data; the cached block could not be written; or the whole blocks behind it could
      not, with the rest of the data cached already. */
  datatype Event = Accepted(n: nat) | NotErased | Refused(n: nat) | BlockLost(n: nat) | BodyLost(n: nat)

  /** Bytes that complete the cached block. */
  function TopUpLen(partial: nat): nat { if 0 < partial <= 16 then 16 - partial else 0 }

  /** The write fills the cached block, or there is none, so that whole blocks are written. */
  predicate ReachesBody(partial: nat, n: nat) { partial == 0 || partial + n >= 16 }

  predicate Possible(encrypted: bool, p: Plan, e: Event) {
    match e
    case Accepted(_) => true
    case NotErased => true
    case Refused(n) => n > 0 && (encrypted ==> p.wrote == p.partial == 0)
    case BlockLost(n) => n > 0 && encrypted && p.partial > 0 && ReachesBody(p.partial, n)
    case BodyLost(n) => n > 0 && encrypted && ReachesBody(p.partial, n)
  }

  /** The counts after a write that failed behind its erase. */
  function PlanLost(p: Plan, e: Event, erased: nat): Plan
    requires !e.Accepted? && !e.NotErased? && (e.BodyLost? ==> ReachesBody(p.partial, e.n))
  {
    match e
    case Refused(n) => Plan(p.wrote, p.partial, erased)
    case BlockLost(n) => Plan(p.wrote, 16, erased)
    case BodyLost(n) => Plan(p.wrote + (if p.partial > 0 then 16 else 0), (n - TopUpLen(p.partial)) % 16, erased)
  }

  function PlanEvent(encrypted: bool, es: nat, sequential: bool, p: Plan, e: Event): Plan
    requires es > 0 && Possible(encrypted, p, e)
  {
    match e
    case Accepted(n) => PlanWrite(encrypted, es, sequential, p, n)
    case NotErased => p
    case _ => PlanLost(p, e, PlanErased(es, sequential, p, e.n))
  }

  predicate RiskyEvent(encrypted: bool, es: nat, sequential: bool, p: Plan, e: Event)
    requires es > 0
  {
    e.Accepted? && Risky(encrypted, es, sequential, p, e.n)
  }

  /** The lazy erase itself: whole sectors, and room for at least one block more than before. */
  lemma ErasedAhead(encrypted: bool, es: nat, sequential: bool, p: Plan, n: nat)
    requires PlanOk(encrypted, es, sequential, p) && n > 0
    ensures var x := PlanErased(es, sequential, p, n);
            x % es == 0 && (sequential ==> p.wrote <= x && (encrypted ==> p.wrote + 16 <= x))
  {
    if encrypted {
      SectorEndBlocks(p.wrote, n, es);
      Apart(p.wrote, SectorEnd(p.wrote + n - 1, es), 16);
    }
  }

  lemma LostOk(encrypted: bool, es: nat, sequential: bool, p: Plan, e: Event, x: nat)
    requires PlanOk(encrypted, es, sequential, p) && Possible(encrypted, p, e) && !e.Accepted? && !e.NotErased?
    requires x % es == 0 && (sequential ==> p.wrote <= x && (encrypted ==> p.wrote + 16 <= x))
    ensures PlanOk(encrypted, es, sequential, PlanLost(p, e, x))
  {}

  /** Every outcome but a risky write keeps everything in flash inside the erased part. */
  lemma EventOkIff(encrypted: bool, es: nat, sequential: bool, p: Plan, e: Event)
    requires PlanOk(encrypted, es, sequential, p) && Possible(encrypted, p, e)
    ensures PlanOk(encrypted, es, sequential, PlanEvent(encrypted, es, sequential, p, e))
            <==> !RiskyEvent(encrypted, es, sequential, p, e)
  {
    match e
    case Accepted(n) => PlanWriteOkIff(encrypted, es, sequential, p, n);
    case NotErased =>
    case _ =>
      ErasedAhead(encrypted, es, sequential, p, e.n);
      LostOk(encrypted, es, sequential, p, e, PlanErased(es, sequential, p, e.n));
  }

  predicate AllPossible(encrypted: bool, es: nat, sequential: bool, p: Plan, events: seq<Event>)
    requires es > 0
    decreases |events|, 0
  {
    events != [] ==>
      var n := |events| - 1;
      AllPossible(encrypted, es, sequential, p, events[..n])
      && Possible(encrypted, PlanEvents(encrypted, es, sequential, p, events[..n]), events[n])
  }

  function PlanEvents(encrypted: bool, es: nat, sequential: bool, p: Plan, events: seq<Event>): Plan
    requires es > 0 && AllPossible(encrypted, es, sequential, p, events)
    decreases |events|, 1
  {
    if events == [] then p
    else
      var n := |events| - 1;
      PlanEvent(encrypted, es, sequential, PlanEvents(encrypted, es, sequential, p, events[..n]), events[n])
  }

  /** No write of the run is risky. */
  predicate NoneRisky(encrypted: bool, es: nat, sequential: bool, p: Plan, events: seq<Event>)
    requires es > 0 && AllPossible(encrypted, es, sequential, p, events)
    decreases |events|
  {
    events != [] ==>
      var n := |events| - 1;
      NoneRisky(encrypted, es, sequential, p, events[..n])
      && !RiskyEvent(encrypted, es, sequential, PlanEvents(encrypted, es, sequential, p, events[..n]), events[n])
  }

  /** At every moment of the run everything in flash lies in the erased part. */
  ghost predicate AlwaysCovered(encrypted: bool, es: nat, sequential: bool, p: Plan, events: seq<Event>)
    requires es > 0 && AllPossible(encrypted, es, sequential, p, events)
    decreases |events|
  {
    && PlanOk(encrypted, es, sequential, PlanEvents(encrypted, es, sequential, p, events))
    && (events != [] ==> AlwaysCovered(encrypted, es, sequential, p, events[..|events| - 1]))
  }

  /** Over every mix of successful and failed writes, in any order and of any sizes, all bytes in
      flash lie in the erased part at all times, exactly when no write of the run is risky. */
  lemma {:induction false} AlwaysCoveredIff(encrypted: bool, es: nat, sequential: bool, p: Plan, events: seq<Event>)
    requires es > 0 && AllPossible(encrypted, es, sequential, p, events) && PlanOk(encrypted, es, sequential, p)
    ensures AlwaysCovered(encrypted, es, sequential, p, events) <==> NoneRisky(encrypted, es, sequential, p, events)
  {
    if events != [] {
      var n := |events| - 1;
      AlwaysCoveredIff(encrypted, es, sequential, p, events[..n]);
      var q := PlanEvents(encrypted, es, sequential, p, events[..n]);
      if PlanOk(encrypted, es, sequential, q) { EventOkIff(encrypted, es, sequential, q, events[n]); }
      if n > 0 && AlwaysCovered(encrypted, es, sequential, p, events[..n]) {
        assert PlanOk(encrypted, es, sequential, q);
      }
    }
  }

  lemma EventsNext(encrypted: bool, es: nat, sequential: bool, p: Plan, events: seq<Event>, e: Event)
    requires es > 0 && AllPossible(encrypted, es, sequential, p, events)
    requires Possible(encrypted, PlanEvents(encrypted, es, sequential, p, events), e)
    ensures AllPossible(encrypted, es, sequential, p, events + [e])
    ensures PlanEvents(encrypted, es, sequential, p, events + [e])
            == PlanEvent(encrypted, es, sequential, PlanEvents(encrypted, es, sequential, p, events), e)
    ensures NoneRisky(encrypted, es, sequential, p, events + [e]) <==>
              NoneRisky(encrypted, es, sequential, p, events)
              && !RiskyEvent(encrypted, es, sequential, PlanEvents(encrypted, es, sequential, p, events), e)
  {
    assert (events + [e])[..|events|] == events;
  }

  lemma BeforeLoss(es: nat, n: nat, m: nat)
    requires es == 4096 && n == 4080 && m == 15
    ensures PlanRun(true, es, true, Plan(0, 0, 0), [n, m]) == Plan(4080, 15, es)
  {
    TwoWrites(es, n, m);
    WriteInFirstSector(es, Plan(0, 0, 0), n, 4080);
    WriteInFirstSector(es, Plan(4080, 0, es), m, 4080);
  }

  lemma LossAndRetry(es: nat, p: Plan, q: Plan, k: nat)
    requires es == 4096 && p == Plan(4080, 15, es) && q == Plan(4080, 16, es) && k == 16
    ensures Possible(true, p, BlockLost(k)) && PlanEvent(true, es, true, p, BlockLost(k)) == q
    ensures PlanEvent(true, es, true, q, Accepted(k)) == Plan(4112, 0, es)
  {
    WriteInFirstSector(es, p, k, 4096);
    WriteInFirstSector(es, q, k, 4112);
  }

  /** Writes of 4080 and 15 bytes, a write of 16 bytes that fails in its cached block, and its retry:
      the retry is accepted and puts bytes into a sector that was never erased. */
  lemma RetryNotErased(es: nat, n: nat, m: nat, k: nat)
    requires es == 4096 && n == 4080 && m == 15 && k == 16
    ensures var p := PlanRun(true, es, true, Plan(0, 0, 0), [n, m]);
            && Possible(true, p, BlockLost(k))
            && var q := PlanEvent(true, es, true, p, BlockLost(k));
               var r := PlanEvent(true, es, true, q, Accepted(k));
               q.partial == 16 && r.wrote == 4112 && r.erased == 4096
  {
    BeforeLoss(es, n, m);
    LossAndRetry(es, Plan(4080, 15, es), Plan(4080, 16, es), k);
  }
}
