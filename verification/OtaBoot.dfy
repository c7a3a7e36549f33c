/** Boot selection: two sectors hold a sequence number each, the valid entry with the greatest one
    decides, and selecting a slot rewrites one sector. */
module OtaBoot {
  import opened Arithmetic
  import opened Basics

  const BLANK_SEQ: nat := 0xFFFF_FFFF

  datatype ImageState = New | PendingVerify | Valid | Invalid | Aborted | Undefined

  type Word = n: nat | n < U32

  datatype Entry = Entry(seqNo: Word, state: ImageState, crc: nat)

  /** What an erased sector reads as. */
  const ERASED := Entry(BLANK_SEQ, Undefined, 0xFFFF_FFFF)

  datatype Boot = Default | Slot(index: nat)

  /** The checksum of a sequence number is a parameter of everything below. */
  type Crc = nat -> nat

  predicate SelectInvalid(e: Entry) {
    e.seqNo == BLANK_SEQ || e.state == Invalid || e.state == Aborted
  }

  predicate SelectValid(e: Entry, crc: Crc) { !SelectInvalid(e) && e.crc == crc(e.seqNo) }

  /** Index of the deciding entry, -1 when none is valid. */
  function Active(d: seq<Entry>, crc: Crc): (a: int)
    requires |d| == 2
    ensures -1 <= a <= 1
    ensures a == -1 <==> !SelectValid(d[0], crc) && !SelectValid(d[1], crc)
    ensures a != -1 ==> SelectValid(d[a], crc) && (SelectValid(d[1 - a], crc) ==> d[1 - a].seqNo <= d[a].seqNo)
  {
    if SelectValid(d[0], crc) && SelectValid(d[1], crc) then
      var condition := if d[0].seqNo > d[1].seqNo then d[0].seqNo else d[1].seqNo;
      if condition == d[0].seqNo then 0 else 1
    else if SelectValid(d[0], crc) then 0
    else if SelectValid(d[1], crc) then 1
    else -1
  }

  /** A written entry that is neither marked bad nor damaged. */
  predicate Intact(e: Entry, crc: Crc) {
    e.seqNo != 0xFFFF_FFFF && e.state in {New, PendingVerify, Valid, Undefined} && e.crc == crc(e.seqNo)
  }

  /** The deciding entry is intact, and no intact one has a greater number; none decides when none is
      intact.  So a blank, bad or damaged entry never decides. */
  lemma ActiveIsIntact(d: seq<Entry>, crc: Crc)
    requires |d| == 2
    ensures var a := Active(d, crc);
            && (a == -1 <==> !Intact(d[0], crc) && !Intact(d[1], crc))
            && (a != -1 ==> Intact(d[a], crc) && (Intact(d[1 - a], crc) ==> d[1 - a].seqNo <= d[a].seqNo))
  {}

  /** An intact entry with number 0 boots the last slot before the numbers wrap around. */
  lemma ZeroBootsBeforeOne(d: seq<Entry>, count: nat, crc: Crc)
    requires |d| == 2 && count > 0 && Intact(d[0], crc) && d[0].seqNo == 0 && !Intact(d[1], crc)
    ensures BootPartition(d, count, crc) == Slot(0xFFFF_FFFF % count)
  {}

  /** What boots does not depend on an entry that is not intact, as long as the other one is. */
  lemma DamagedIsIgnored(d: seq<Entry>, i: nat, e: Entry, count: nat, crc: Crc)
    requires |d| == 2 && i < 2 && count > 0 && Intact(d[1 - i], crc) && !Intact(d[i], crc) && !Intact(e, crc)
    ensures BootPartition(d[i := e], count, crc) == BootPartition(d, count, crc) == Slot(SlotOf(d[1 - i].seqNo, count))
  {}

  /** The slot of a sequence number, in 32-bit arithmetic. */
  function SlotOf(seqNo: nat, count: nat): nat
    requires count > 0
  {
    (if seqNo == 0 then U32 - 1 else seqNo - 1) % count
  }

  /** The partition the next boot uses. */
  function BootPartition(d: seq<Entry>, count: nat, crc: Crc): Boot
    requires |d| == 2
  {
    if (SelectInvalid(d[0]) && SelectInvalid(d[1])) || count == 0 then Default
    else
      var a := Active(d, crc);
      if a != -1 then Slot(SlotOf(d[a].seqNo, count)) else Default
  }

  // ------------------------------------------------------------------ the sequence number

  /** `seqNo` boots slot `slot` out of `count`. */
  predicate Selects(seqNo: nat, slot: nat, count: nat)
    requires count > 0
  {
    seqNo % count == (slot + 1) % count
  }

  /** The least number from `current` on that boots `slot`. */
  function NextSeq(current: nat, slot: nat, count: nat): (r: nat)
    requires count > 0
    ensures current <= r < current + count && Selects(r, slot, count)
  {
    var a := slot + 1 - current;
    var r := current + a % count;
    assert Selects(r, slot, count) by {
      assert a == a / count * count + a % count;
      assert r == slot + 1 + (-(a / count)) * count;
      ModShift(slot + 1, -(a / count), count);
    }
    r
  }

  lemma NextSeqIsLeast(current: nat, slot: nat, count: nat)
    requires count > 0
    ensures forall x :: current <= x < NextSeq(current, slot, count) ==> !Selects(x, slot, count)
  {
    var r := NextSeq(current, slot, count);
    forall x | current <= x < r ensures !Selects(x, slot, count) {
      SameRemainder(x, r, count);
    }
  }

  /** It is the only match less than one slot count ahead. */
  lemma OneMatch(current: nat, slot: nat, count: nat, r: nat)
    requires count > 0 && Selects(r, slot, count) && current <= r < current + count
    ensures r == NextSeq(current, slot, count)
  {
    SameRemainder(r, NextSeq(current, slot, count), count);
    SameRemainder(NextSeq(current, slot, count), r, count);
  }

  // ------------------------------------------------------------------ the search in 32-bit arithmetic

  /** The number the search looks at in round `i`. */
  function Candidate(slot: nat, count: nat, i: nat): Word
    requires count > 0
  {
    ((slot + 1) % count + i * count) % U32
  }

  /** Round `i` ends the search. */
  predicate Hit(current: nat, slot: nat, count: nat, i: nat)
    requires count > 0
  {
    Candidate(slot, count, i) >= current
  }

  ghost predicate FirstHit(current: nat, slot: nat, count: nat, i: nat)
    requires count > 0
  {
    Hit(current, slot, count, i) && forall j: nat :: j < i ==> !Hit(current, slot, count, j)
  }

  lemma FirstHitExists(current: nat, slot: nat, count: nat, i: nat)
    requires count > 0 && Hit(current, slot, count, i)
    ensures exists k: nat :: k <= i && FirstHit(current, slot, count, k)
  {
    if j: nat :| j < i && Hit(current, slot, count, j) {
      FirstHitExists(current, slot, count, j);
    } else {
      assert FirstHit(current, slot, count, i);
    }
  }

  /** The number the search ends on; none when it goes on forever. */
  ghost function Searched(current: nat, slot: nat, count: nat): (r: Option<Word>)
  {
    if count == 0 then Some(0)
    else if i: nat :| FirstHit(current, slot, count, i) then Some(Candidate(slot, count, i))
    else None
  }

  /** The search loop of the source.  It is called only where it ends. */
  method ComputeOtaSeq(current: Word, slot: nat, count: nat) returns (r: Word)
    requires Searched(current, slot, count).Some?
    ensures Searched(current, slot, count) == Some(r)
  {
    if count == 0 { return 0; }
    ghost var k: nat :| FirstHit(current, slot, count, k) && Searched(current, slot, count) == Some(Candidate(slot, count, k));
    var i: nat := 0;
    var base := (slot + 1) % count;
    while current > (base + i * count) % U32
      invariant i <= k
      decreases k - i
    {
      assert !Hit(current, slot, count, i);
      i := i + 1;
    }
    assert Hit(current, slot, count, i);
    r := (base + i * count) % U32;
  }

  lemma FirstHitUnique(current: nat, slot: nat, count: nat, i: nat, j: nat)
    requires count > 0 && FirstHit(current, slot, count, i) && FirstHit(current, slot, count, j)
    ensures i == j
  {}

  lemma SearchedHit(current: nat, slot: nat, count: nat, i: nat)
    requires count > 0 && FirstHit(current, slot, count, i)
    ensures Searched(current, slot, count) == Some(Candidate(slot, count, i))
  {
    var k: nat :| FirstHit(current, slot, count, k) && Searched(current, slot, count) == Some(Candidate(slot, count, k));
    FirstHitUnique(current, slot, count, i, k);
  }

  /** The round in which a number that boots the slot is looked at. */
  lemma RoundOf(slot: nat, count: nat, x: nat) returns (i: nat)
    requires count > 0 && x < U32 && Selects(x, slot, count)
    ensures (slot + 1) % count + i * count == x && Candidate(slot, count, i) == x
    ensures forall j: nat :: j < i ==> Candidate(slot, count, j) < x && Selects(Candidate(slot, count, j), slot, count)
  {
    var base := (slot + 1) % count;
    i := x / count;
    assert x == i * count + x % count;
    DivUnique(x, 0, x, U32);
    forall j: nat | j < i ensures Candidate(slot, count, j) < x && Selects(Candidate(slot, count, j), slot, count) {
      var y := base + j * count;
      MulMono(j + 1, i, count);
      assert (j + 1) * count == j * count + count;
      DivUnique(y, 0, y, U32);
      DivUnique(y, j, base, count);
    }
  }

  /** The search finds the least number from the current one on that boots the slot, when that is
      below 2^32. */
  lemma SearchFindsNext(current: Word, slot: nat, count: nat)
    requires count > 0 && NextSeq(current, slot, count) < U32
    ensures Searched(current, slot, count) == Some(NextSeq(current, slot, count))
  {
    var x := NextSeq(current, slot, count);
    var i := RoundOf(slot, count, x);
    NextSeqIsLeast(current, slot, count);
    forall j: nat | j < i ensures !Hit(current, slot, count, j) {
      assert Candidate(slot, count, j) < x && Selects(Candidate(slot, count, j), slot, count);
    }
    SearchedHit(current, slot, count, i);
  }

  /** The search ends on a number that boots the slot exactly when there is one from the current
      number on below 2^32; otherwise it wraps around and ends on a wrong slot or never. */
  lemma SearchBootsIff(current: Word, slot: nat, count: nat)
    requires count > 0
    ensures var r := Searched(current, slot, count);
            r.Some? && Selects(r.value, slot, count) <==> NextSeq(current, slot, count) < U32
    ensures Searched(current, slot, count).Some? ==> Searched(current, slot, count).value >= current
  {
    var r := Searched(current, slot, count);
    if NextSeq(current, slot, count) < U32 {
      SearchFindsNext(current, slot, count);
    } else if r.Some? && Selects(r.value, slot, count) {
      NextSeqIsLeast(current, slot, count);
    }
  }

  /** The greatest power of two that divides `count`. */
  function TwoPart(count: nat): (g: nat)
    requires count > 0
    ensures g > 0
  {
    if count % 2 == 1 then 1 else 2 * TwoPart(count / 2)
  }

  /** `x` is an inverse of `m` modulo `P`. */
  predicate Inverts(m: nat, x: nat, t: int, P: nat) { m * x == 1 + t * P }

  lemma LiftInverse(m: nat, y: nat, u: int, h: nat, z: int)
    requires Inverts(m, y, u, h)
    ensures u == 2 * z ==> Inverts(m, y, z, 2 * h)
    ensures u + m == 2 * z ==> Inverts(m, y + h, z, 2 * h)
  {
    MulAssoc(z, 2, h);
    MulSum(y, h, m);
    MulSum(u, m, h);
  }

  lemma InvertsOne(m: nat, P: nat)
    requires P == 1
    ensures Inverts(m, 1, m - 1, P)
  {}

  /** An odd number has an inverse modulo each power of two. */
  lemma {:induction false} OddInverse(m: nat, k: nat) returns (x: nat, t: int)
    requires m % 2 == 1
    ensures Inverts(m, x, t, Pow2(k))
  {
    if k == 0 {
      x, t := 1, m - 1;
      InvertsOne(m, Pow2(k));
    } else {
      var y, u := OddInverse(m, k - 1);
      LiftInverse(m, y, u, Pow2(k - 1), if u % 2 == 0 then u / 2 else (u + m) / 2);
      if u % 2 == 0 { x, t := y, u / 2; } else { x, t := y + Pow2(k - 1), (u + m) / 2; }
    }
  }

  lemma Doubled(a: nat, g: nat)
    ensures a * (2 * g) == 2 * (a * g)
  {}

  /** A slot count is an odd number times its part in powers of two, which divides 2^32. */
  lemma {:induction false} TwoPartIs(count: nat, k: nat) returns (m: nat, j: nat)
    requires 0 < count < Pow2(k)
    ensures j <= k && m % 2 == 1 && count == m * TwoPart(count) && Pow2(j) * TwoPart(count) == Pow2(k)
  {
    if count % 2 == 1 {
      m, j := count, k;
    } else {
      m, j := TwoPartIs(count / 2, k - 1);
      Doubled(m, TwoPart(count / 2));
      Doubled(Pow2(j), TwoPart(count / 2));
    }
  }

  lemma BaseRest(slot: nat, count: nat, g: nat, m: nat)
    requires count > 0 && g > 0 && count == m * g
    ensures (slot + 1) % count % g == (slot + 1) % g
  {
    var b, q := (slot + 1) % count, (slot + 1) / count;
    assert slot + 1 == q * count + b;
    MulAssoc(q, m, g);
    ModShift(b, q * m, g);
  }

  /** A number below `P * g` is at most its rest above the last multiple of `g`. */
  lemma BelowMultiple(c: nat, g: nat, P: nat)
    requires g > 0 && c < P * g
    ensures c / g < P && c <= P * g - g + c % g
  {
    var q := c / g;
    assert c == q * g + c % g;
    MulMono(P, q, g);
    MulMono(q, P - 1, g);
    assert (P - 1) * g == P * g - g;
  }

  /** All numbers looked at have the same rest by `g`. */
  lemma CandidateAtMost(slot: nat, count: nat, i: nat, g: nat, m: nat, P: nat)
    requires count > 0 && g > 0 && count == m * g && P * g == U32
    ensures Candidate(slot, count, i) <= U32 - g + (slot + 1) % g
  {
    var b, c := (slot + 1) % count, Candidate(slot, count, i);
    var t := b + i * count;
    var k := t / U32;
    assert t == k * U32 + c;
    MulAssoc(i, m, g);
    MulAssoc(k, P, g);
    MulSum(i * m - k * P, k * P, g);
    ModShift(b, i * m - k * P, g);
    BaseRest(slot, count, g, m);
    BelowMultiple(c, g, P);
  }

  lemma StepsOf(d: nat, x: nat, m: nat, g: nat, P: nat, t: int)
    requires Inverts(m, x, t, P)
    ensures d * x * (m * g) == d * g + d * t * (P * g)
  {
    MulAssoc(d, x, m * g);
    MulAssoc(x, m, g);
    MulSum(1, t * P, g);
    MulAssoc(t, P, g);
    MulSum(g, t * (P * g), d);
    MulAssoc(d, t, P * g);
  }

  /** The greatest such number is looked at: `x` inverts `m` modulo `P`. */
  lemma GreatestReached(slot: nat, count: nat, g: nat, m: nat, P: nat, x: nat, t: int) returns (i: nat)
    requires 0 < count < U32 && g > 0 && count == m * g && P * g == U32 && Inverts(m, x, t, P)
    ensures Candidate(slot, count, i) == U32 - g + (slot + 1) % g
  {
    var b := (slot + 1) % count;
    BaseRest(slot, count, g, m);
    BelowMultiple(b, g, P);
    var q, r := b / g, (slot + 1) % g;
    var d: nat := P - 1 - q;
    i := d * x;
    assert b == q * g + r;
    MulSum(d, 1 + q, g);
    MulSum(1, q, g);
    StepsOf(d, x, m, g, P, t);
    DivUnique(b + i * count, d * t, U32 - g + r, U32);
  }

  lemma PowEight(k: nat)
    requires k >= 8
    ensures Pow2(k) == 0x100 * Pow2(k - 8)
  {
    assert Pow2(k) == 2 * Pow2(k - 1) == 4 * Pow2(k - 2) == 8 * Pow2(k - 3) == 16 * Pow2(k - 4);
    assert Pow2(k - 4) == 2 * Pow2(k - 5) == 4 * Pow2(k - 6) == 8 * Pow2(k - 7) == 16 * Pow2(k - 8);
  }

  lemma ThirtyTwo(k: nat)
    requires k == 32
    ensures Pow2(k) == U32
  {
    PowEight(k);
    PowEight(k - 8);
    PowEight(k - 16);
    PowEight(k - 24);
  }

  /** The search ends exactly when the current number is at most the greatest number below 2^32 with
      the same rest as the slot's numbers by the part of the slot count in powers of two. */
  lemma SearchEndsIff(current: Word, slot: nat, count: nat)
    requires 0 < count < U32
    ensures var g := TwoPart(count);
            Searched(current, slot, count).Some? <==> current <= U32 - g + (slot + 1) % g
  {
    var k, g := 32, TwoPart(count);
    ThirtyTwo(k);
    var m, j := TwoPartIs(count, k);
    var x, t := OddInverse(m, j);
    var i := GreatestReached(slot, count, g, m, Pow2(j), x, t);
    if Hit(current, slot, count, i) {
      FirstHitExists(current, slot, count, i);
      var l: nat :| FirstHit(current, slot, count, l);
      SearchedHit(current, slot, count, l);
    }
    if l: nat :| FirstHit(current, slot, count, l) { CandidateAtMost(slot, count, l, g, m, Pow2(j)); }
  }

  /** With an odd number of slots the search always ends. */
  lemma OddCountEnds(current: Word, slot: nat, count: nat)
    requires count % 2 == 1 && count < U32
    ensures Searched(current, slot, count).Some?
  {
    SearchEndsIff(current, slot, count);
  }

  lemma SelectsBase(slot: nat, count: nat, x: nat, k: int)
    requires count > 0 && x == (slot + 1) % count + k * count
    ensures Selects(x, slot, count)
  {
    ModShift((slot + 1) % count, k, count);
    var b := (slot + 1) % count;
    DivUnique(b, 0, b, count);
  }

  lemma CandidateSelects(slot: nat, count: nat, i: nat)
    requires count > 0 && U32 % count == 0
    ensures Selects(Candidate(slot, count, i), slot, count)
  {
    var b, q := (slot + 1) % count, U32 / count;
    var t := b + i * count;
    var c, k := Candidate(slot, count, i), t / U32;
    assert U32 == q * count && t == k * U32 + c;
    assert k * U32 == k * q * count;
    assert (i - k * q) * count == i * count - k * q * count;
    SelectsBase(slot, count, c, i - k * q);
  }

  /** For a slot count that divides 2^32, every number looked at boots the slot, so the search goes
      on forever when there is none from the current one on. */
  lemma SearchEndsOnSlotIff(current: Word, slot: nat, count: nat)
    requires count > 0 && U32 % count == 0
    ensures Searched(current, slot, count).Some? <==> NextSeq(current, slot, count) < U32
  {
    SearchBootsIff(current, slot, count);
    if i: nat :| FirstHit(current, slot, count, i) {
      SearchedHit(current, slot, count, i);
      CandidateSelects(slot, count, i);
    }
  }

  /** Sixteen slots, the greatest valid number in use, slot 0 asked for: the search never ends. */
  lemma SearchNeverEnds(current: Word, slot: nat, count: nat)
    requires current == 0xFFFF_FFFE && slot == 0 && count == 16
    ensures Searched(current, slot, count) == None
  {
    SearchEndsOnSlotIff(current, slot, count);
    OneMatch(current, slot, count, current + 3);
  }

  /** Twelve slots, number 0xFFFFFFFD in use, slot 3 asked for: all numbers looked at are multiples of
      four, and the search never ends. */
  lemma TwelveSlotsNeverEnd(current: Word, slot: nat, count: nat)
    requires current == 0xFFFF_FFFD && slot == 3 && count == 12
    ensures Searched(current, slot, count) == None
  {
    SearchEndsIff(current, slot, count);
    assert TwoPart(count) == 2 * TwoPart(6) && TwoPart(6) == 2 * TwoPart(3);
  }

  // ------------------------------------------------------------------ selecting a slot

  /** Sector to rewrite and its new sequence number; none when the search goes on forever. */
  ghost function Target(d: seq<Entry>, slot: nat, count: nat, crc: Crc): (t: (nat, Option<Word>))
    requires |d| == 2 && slot < count <= 0xFF
    ensures t.0 <= 1
  {
    var a := Active(d, crc);
    if a == -1 then (0, Some(slot + 1))
    else if SlotOf(d[a].seqNo, count) == slot then (a, Some(d[a].seqNo))
    else (1 - a, Searched(d[a].seqNo, slot, count))
  }

  /** How much of a rewrite was done when power was lost: nothing, the erase, or all of it. */
  datatype Progress = NotStarted | Erased | Done

  /** The two sectors after a (possibly cut) selection of `slot`; a search without end writes nothing. */
  ghost function Select(d: seq<Entry>, slot: nat, count: nat, state: ImageState, crc: Crc, p: Progress): (d': seq<Entry>)
    requires |d| == 2 && slot < count <= 0xFF
    ensures |d'| == 2
  {
    var (sector, seqNo) := Target(d, slot, count, crc);
    if seqNo.None? then d
    else match p
      case NotStarted => d
      case Erased => d[sector := ERASED]
      case Done => d[sector := Entry(seqNo.value, state, crc(seqNo.value))]
  }

  datatype Error = InvalidArg
  datatype Result = Ok | Err(error: Error)

  /** The OTA data partition, rewritten in place. */
  class OtaData {
    var sectors: seq<Entry>

    constructor (sectors: seq<Entry>)
      requires |sectors| == 2
      ensures this.sectors == sectors
    {
      this.sectors := sectors;
    }

    method RewriteOtaSeq(seqNo: Word, sector: nat, state: ImageState, crc: Crc, p: Progress)
      requires |sectors| == 2 && sector <= 1
      modifies this
      ensures sectors == match p
                         case NotStarted => old(sectors)
                         case Erased => old(sectors)[sector := ERASED]
                         case Done => old(sectors)[sector := Entry(seqNo, state, crc(seqNo))]
    {
      if p == NotStarted { return; }
      sectors := sectors[sector := ERASED];
      if p == Erased { return; }
      sectors := sectors[sector := Entry(seqNo, state, crc(seqNo))];
    }

    method RewriteOtaData(slot: nat, count: nat, state: ImageState, crc: Crc, p: Progress) returns (res: Result)
      requires |sectors| == 2 && count <= 0xFF
      requires slot < count ==> Target(sectors, slot, count, crc).1.Some?   // the search ends
      modifies this
      ensures |sectors| == 2
      ensures res == (if slot >= count then Err(InvalidArg) else Ok)
      ensures sectors == if slot >= count then old(sectors) else Select(old(sectors), slot, count, state, crc, p)
    {
      if slot >= count { return Err(InvalidArg); }
      var active := Active(sectors, crc);
      var next: nat, newSeq: Word;
      if active != -1 {
        var current := SlotOf(sectors[active].seqNo, count);
        if current == slot {
          next, newSeq := active, sectors[active].seqNo;
        } else {
          next := 1 - active;
          newSeq := ComputeOtaSeq(sectors[active].seqNo, slot, count);
        }
      } else {
        next, newSeq := 0, slot + 1;
      }
      RewriteOtaSeq(newSeq, next, state, crc, p);
      res := Ok;
    }
  }

  // ------------------------------------------------------------------ selecting, then booting

  lemma SelectsIsSlotOf(seqNo: nat, slot: nat, count: nat)
    requires slot < count && seqNo >= 1
    ensures Selects(seqNo, slot, count) <==> SlotOf(seqNo, count) == slot
  {
    var s := SlotOf(seqNo, count);
    assert seqNo - 1 == (seqNo - 1) / count * count + s;
    ModShift(s + 1, (seqNo - 1) / count, count);
    assert seqNo % count == (s + 1) % count;
    if s + 1 < count { DivUnique(s + 1, 0, s + 1, count); } else { DivUnique(s + 1, 1, 0, count); }
    if slot + 1 < count { DivUnique(slot + 1, 0, slot + 1, count); } else { DivUnique(slot + 1, 1, 0, count); }
  }

  /** Steps round the slots from one to another. */
  function Steps(from: nat, to: nat, count: nat): (n: nat)
    requires from < count && to < count
    ensures n < count && (n == 0 <==> from == to)
  {
    if to >= from then to - from else to + count - from
  }

  /** The next number for a slot is as many steps on as the slot. */
  lemma NextSeqIs(seqNo: nat, slot: nat, count: nat)
    requires slot < count && seqNo >= 1
    ensures NextSeq(seqNo, slot, count) == seqNo + Steps(SlotOf(seqNo, count), slot, count)
  {
    var s := SlotOf(seqNo, count);
    var n, q := Steps(s, slot, count), (seqNo - 1) / count;
    assert seqNo - 1 == q * count + s;
    assert (q + 1) * count == q * count + count;
    if slot >= s { DivUnique(seqNo + n - 1, q, slot, count); } else { DivUnique(seqNo + n - 1, q + 1, slot, count); }
    SelectsIsSlotOf(seqNo + n, slot, count);
    OneMatch(seqNo, slot, count, seqNo + n);
  }

  /** A selection that does not boot its slot: it asks for another slot than the one in use, and
      counting on to it reaches the number that marks a blank entry, or passes it. */
  predicate OutOfNumbers(d: seq<Entry>, slot: nat, count: nat, crc: Crc)
    requires |d| == 2 && slot < count
  {
    var a := Active(d, crc);
    a != -1 && SlotOf(d[a].seqNo, count) != slot
    && d[a].seqNo + Steps(SlotOf(d[a].seqNo, count), slot, count) >= BLANK_SEQ
  }

  /** States that leave an entry usable, as those that `esp_ota_set_boot_partition` writes. */
  predicate FreshState(state: ImageState) { state != Invalid && state != Aborted }

  /** The number written, or why none boots the slot. */
  lemma TargetIs(d: seq<Entry>, slot: nat, count: nat, crc: Crc)
    requires |d| == 2 && slot < count <= 0xFF && (Active(d, crc) != -1 ==> d[Active(d, crc)].seqNo >= 1)
    ensures var a := Active(d, crc);
            var (sector, seqNo) := Target(d, slot, count, crc);
            && (OutOfNumbers(d, slot, count, crc) ==>
                  sector == 1 - a && (seqNo.None? || seqNo.value == BLANK_SEQ
                    || (seqNo.value >= d[a].seqNo && SlotOf(seqNo.value, count) != slot)))
            && (!OutOfNumbers(d, slot, count, crc) ==>
                  seqNo.Some? && 1 <= seqNo.value < BLANK_SEQ && SlotOf(seqNo.value, count) == slot
                  && (sector != a && a != -1 ==> seqNo.value > d[a].seqNo))
  {
    var a := Active(d, crc);
    if a != -1 && SlotOf(d[a].seqNo, count) != slot {
      var cur := d[a].seqNo;
      NextSeqIs(cur, slot, count);
      SearchBootsIff(cur, slot, count);
      var r := Searched(cur, slot, count);
      if NextSeq(cur, slot, count) < U32 {
        SearchFindsNext(cur, slot, count);
        SelectsIsSlotOf(r.value, slot, count);
      } else if r.Some? {
        SelectsIsSlotOf(r.value, slot, count);
      }
    }
    if a == -1 { DivUnique(slot, 0, slot, count); }
  }

  /** Selecting a slot and then asking for the boot partition returns that slot, exactly unless the
      selection runs out of sequence numbers. */
  lemma SelectThenBootIff(d: seq<Entry>, slot: nat, count: nat, state: ImageState, crc: Crc)
    requires |d| == 2 && slot < count <= 0xFF && FreshState(state)
    requires Active(d, crc) != -1 ==> d[Active(d, crc)].seqNo >= 1
    ensures BootPartition(Select(d, slot, count, state, crc, Done), count, crc) == Slot(slot)
            <==> !OutOfNumbers(d, slot, count, crc)
  {
    TargetIs(d, slot, count, crc);
  }

  /** Three slots, number 0xFFFFFFFD in use: selecting the slot of the blank marker keeps the old one. */
  lemma BlankMarkerReached(d: seq<Entry>, slot: nat, count: nat, state: ImageState, crc: Crc)
    requires |d| == 2 && count == 3 && slot == 2 && FreshState(state)
    requires d[0] == Entry(0xFFFF_FFFD, Undefined, crc(0xFFFF_FFFD)) && d[1] == ERASED
    ensures BootPartition(d, count, crc) == Slot(0)
    ensures BootPartition(Select(d, slot, count, state, crc, Done), count, crc) == Slot(0)
  {
    assert Active(d, crc) == 0 && SlotOf(d[0].seqNo, count) == 0;
    NextSeqIs(d[0].seqNo, slot, count);
    SearchFindsNext(d[0].seqNo, slot, count);
    assert Target(d, slot, count, crc) == (1, Some(BLANK_SEQ));
  }

  /** A switch to another slot uses the least matching number above the current one, less than one
      slot count ahead, and leaves the deciding sector alone. */
  lemma SwitchTarget(d: seq<Entry>, slot: nat, count: nat, crc: Crc)
    requires |d| == 2 && slot < count <= 0xFF && Active(d, crc) != -1 && d[Active(d, crc)].seqNo >= 1
    requires BootPartition(d, count, crc) != Slot(slot) && !OutOfNumbers(d, slot, count, crc)
    ensures var a := Active(d, crc);
            var (sector, seqNo) := Target(d, slot, count, crc);
            && sector != a && seqNo.Some?
            && d[a].seqNo < seqNo.value < d[a].seqNo + count
            && SlotOf(seqNo.value, count) == slot
            && forall x :: d[a].seqNo < x < seqNo.value ==> SlotOf(x, count) != slot
  {
    var a := Active(d, crc);
    var cur := d[a].seqNo;
    TargetIs(d, slot, count, crc);
    NextSeqIs(cur, slot, count);
    SearchFindsNext(cur, slot, count);
    NextSeqIsLeast(cur, slot, count);
    forall x | cur < x < NextSeq(cur, slot, count) ensures SlotOf(x, count) != slot {
      SelectsIsSlotOf(x, slot, count);
    }
  }

  /** Power lost between erase and write boots the same partition as before, exactly unless the slot
      that boots already was selected again and the other entry does not name it too. */
  lemma CutIsHarmlessIff(d: seq<Entry>, slot: nat, count: nat, state: ImageState, crc: Crc)
    requires |d| == 2 && slot < count <= 0xFF
    ensures var a := Active(d, crc);
            BootPartition(Select(d, slot, count, state, crc, Erased), count, crc) == BootPartition(d, count, crc)
            <==> (a != -1 && SlotOf(d[a].seqNo, count) == slot ==>
                    SelectValid(d[1 - a], crc) && SlotOf(d[1 - a].seqNo, count) == slot)
  {}

  // ------------------------------------------------------------------ runs

  /** A selection request and how far it came. */
  datatype Request = Request(slot: nat, state: ImageState, progress: Progress)

  ghost predicate RequestOk(r: Request, count: nat) { r.slot < count && FreshState(r.state) }

  ghost predicate RequestsOk(reqs: seq<Request>, count: nat) {
    forall i :: 0 <= i < |reqs| ==> RequestOk(reqs[i], count)
  }

  ghost function Run(d: seq<Entry>, reqs: seq<Request>, count: nat, crc: Crc): (d': seq<Entry>)
    requires |d| == 2 && count <= 0xFF && RequestsOk(reqs, count)
    ensures |d'| == 2
  {
    if reqs == [] then d
    else
      var r := reqs[|reqs| - 1];
      Select(Run(d, reqs[..|reqs| - 1], count, crc), r.slot, count, r.state, crc, r.progress)
  }

  /** What boots, and what boots when the deciding entry is erased. */
  datatype Booting = Booting(now: Boot, fallback: Boot)

  /** What one request, completed or cut, does to that, in terms of slots only. */
  function After(b: Booting, r: Request): Booting {
    match r.progress
    case NotStarted => b
    case Erased =>
      if b.now == Default then b
      else if b.now == Slot(r.slot) then Booting(b.fallback, Default)
      else Booting(b.now, Default)
    case Done =>
      if b.now == Default then Booting(Slot(r.slot), Default)
      else if b.now == Slot(r.slot) then b
      else Booting(Slot(r.slot), b.now)
  }

  function Expect(reqs: seq<Request>): Booting {
    if reqs == [] then Booting(Default, Default) else After(Expect(reqs[..|reqs| - 1]), reqs[|reqs| - 1])
  }

  /** The entries stand for `b`, with numbers from 1 up to `bound`. */
  ghost predicate Decides(d: seq<Entry>, b: Booting, count: nat, crc: Crc, bound: nat)
    requires |d| == 2
  {
    var a := Active(d, crc);
    && BootPartition(d, count, crc) == b.now && (a == -1 <==> b.now == Default)
    && (a == -1 ==> b.fallback == Default)
    && (a != -1 ==>
          && 1 <= d[a].seqNo <= bound
          && if SelectValid(d[1 - a], crc) then
               1 <= d[1 - a].seqNo < d[a].seqNo && b.fallback == Slot(SlotOf(d[1 - a].seqNo, count))
             else b.fallback == Default)
  }

  lemma RequestDecides(d: seq<Entry>, r: Request, b: Booting, count: nat, crc: Crc, bound: nat)
    requires |d| == 2 && count <= 0xFF && RequestOk(r, count)
    requires Decides(d, b, count, crc, bound) && bound + count < BLANK_SEQ
    ensures Decides(Select(d, r.slot, count, r.state, crc, r.progress), After(b, r), count, crc, bound + count)
  {
    TargetIs(d, r.slot, count, crc);
    var a := Active(d, crc);
    if a != -1 && SlotOf(d[a].seqNo, count) != r.slot { SwitchTarget(d, r.slot, count, crc); }
  }

  lemma OneMore(n: nat, count: nat)
    ensures (n + 1) * count == n * count + count
  {}

  /** Over every run of selections from a blank partition, each completed or cut by a power loss at
      any point, the partition that boots is the one the requests alone determine: the last completed
      selection, unless a re-selection of the slot in use was cut behind its erase. */
  lemma {:induction false} RunBootsExpected(reqs: seq<Request>, count: nat, crc: Crc)
    requires 0 < count <= 0xFF && RequestsOk(reqs, count) && |reqs| * count < BLANK_SEQ
    ensures Decides(Run([ERASED, ERASED], reqs, count, crc), Expect(reqs), count, crc, |reqs| * count)
    ensures BootPartition(Run([ERASED, ERASED], reqs, count, crc), count, crc) == Expect(reqs).now
  {
    if reqs != [] {
      var rest, r := reqs[..|reqs| - 1], reqs[|reqs| - 1];
      OneMore(|rest|, count);
      RunBootsExpected(rest, count, crc);
      RequestDecides(Run([ERASED, ERASED], rest, count, crc), r, Expect(rest), count, crc, |rest| * count);
    }
  }

  /** The slot of the last completed request. */
  function LastDone(reqs: seq<Request>): Boot {
    if reqs == [] then Default
    else
      var r := reqs[|reqs| - 1];
      if r.progress == Done then Slot(r.slot) else LastDone(reqs[..|reqs| - 1])
  }

  /** No re-selection of the slot in use is cut behind its erase. */
  ghost predicate NoCutReselection(reqs: seq<Request>) {
    forall i :: 0 <= i < |reqs| && reqs[i].progress == Erased ==> Expect(reqs[..i]).now != Slot(reqs[i].slot)
  }

  /** Without such a cut the last completed selection boots. */
  lemma {:induction false} LastDoneBoots(reqs: seq<Request>)
    requires NoCutReselection(reqs)
    ensures Expect(reqs).now == LastDone(reqs)
  {
    if reqs != [] {
      var rest := reqs[..|reqs| - 1];
      forall i | 0 <= i < |rest| && rest[i].progress == Erased ensures Expect(rest[..i]).now != Slot(rest[i].slot) {
        assert rest[i] == reqs[i] && rest[..i] == reqs[..i];
      }
      LastDoneBoots(rest);
      assert reqs[..|reqs| - 1] == rest;
    }
  }
}
