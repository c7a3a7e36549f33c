/** The application-trace ring buffer: a byte ring whose write position may wrap early, which
    shrinks the buffer until the read position wraps.  All arithmetic is on 32-bit words. */
module TraceRing {
  import opened Basics

  /** 32-bit addition. */
  function Add32(a: nat, b: nat): (r: nat)
    ensures a + b < U32 ==> r == a + b
    ensures U32 <= a + b < 2 * U32 ==> r == a + b - U32
  {
    (a + b) % U32
  }

  /** The control words of a ring. */
  datatype Ctl = Ctl(size: nat, cur: nat, rd: nat, wr: nat)

  /** The control words after a call and the offset of the region it returned, if any. */
  datatype Grant = Grant(ctl: Ctl, at: Option<nat>)

  function Produce(c: Ctl, n: nat): Grant
    requires c.rd <= c.wr ==> c.rd < U32
  {
    if c.rd <= c.wr then
      if Add32(c.wr, n) >= c.size then
        if c.rd == 0 then Grant(c, None)
        else if Add32(c.wr, n) == c.size then Grant(c.(wr := 0), Some(c.wr))
        else if n > c.rd - 1 then Grant(c, None)
        else if c.rd == c.wr then Grant(Ctl(c.size, if c.wr < c.size then c.size else c.wr, 0, n), Some(0))
        else Grant(c.(cur := c.wr, wr := n), Some(0))
      else Grant(c.(wr := Add32(c.wr, n)), Some(c.wr))
    else if n > c.rd - c.wr - 1 then Grant(c, None)
    else Grant(c.(wr := Add32(c.wr, n)), Some(c.wr))
  }

  function Consume(c: Ctl, n: nat): Grant {
    if c.rd <= c.wr then
      if Add32(c.rd, n) > c.wr then Grant(c, None) else Grant(c.(rd := Add32(c.rd, n)), Some(c.rd))
    else if Add32(c.rd, n) > c.cur then Grant(c, None)
    else if Add32(c.rd, n) == c.cur then
      Grant(c.(cur := if c.cur < c.size then c.size else c.cur, rd := 0), Some(c.rd))
    else Grant(c.(rd := Add32(c.rd, n)), Some(c.rd))
  }

  function ReadSize(c: Ctl): int {
    if c.rd <= c.wr then c.wr - c.rd else c.cur - c.rd
  }

  function WriteSize(c: Ctl): int {
    if c.rd <= c.wr then
      if c.size - c.wr != 0 && c.rd == 0 then c.size - c.wr - 1 else c.size - c.wr
    else c.rd - c.wr - 1
  }

  // ------------------------------------------------------------------ the abstract queue

  /** What every reachable ring satisfies: it is shrunk only while the data wraps. */
  ghost predicate Ok(c: Ctl) {
    && c.size < U32
    && (if c.rd <= c.wr then c.cur == c.size && (c.wr < c.size || c.wr == c.size == 0) else c.rd < c.cur <= c.size)
  }

  /** The unread bytes: one segment, or the tail up to `cur` followed by the head. */
  ghost function Unread(c: Ctl, d: seq<Byte>): seq<Byte>
    requires Ok(c) && |d| == c.size
  {
    if c.rd <= c.wr then d[c.rd..c.wr] else d[c.rd..c.cur] + d[..c.wr]
  }

  ghost predicate IsUnread(c: Ctl, i: int) {
    if c.rd <= c.wr then c.rd <= i < c.wr else c.rd <= i < c.cur || 0 <= i < c.wr
  }

  /** The unread bytes are those whose change changes the queue. */
  lemma UnreadIff(c: Ctl, d: seq<Byte>, i: nat, b: Byte)
    requires Ok(c) && |d| == c.size && i < |d| && b != d[i]
    ensures IsUnread(c, i) <==> Unread(c, d[i := b]) != Unread(c, d)
  {
    var e := d[i := b];
    if c.rd <= c.wr {
      if c.rd <= i < c.wr { assert e[c.rd..c.wr][i - c.rd] == b && d[c.rd..c.wr][i - c.rd] == d[i]; }
    } else if i < c.wr {
      assert e[..c.wr][i] == b && Unread(c, e)[c.cur - c.rd + i] == b && Unread(c, d)[c.cur - c.rd + i] == d[i];
    } else if c.rd <= i < c.cur {
      assert Unread(c, e)[i - c.rd] == b && Unread(c, d)[i - c.rd] == d[i];
    } else {
      assert e[c.rd..c.cur] == d[c.rd..c.cur] && e[..c.wr] == d[..c.wr];
    }
  }

  ghost function Fill(d: seq<Byte>, p: nat, b: seq<Byte>): seq<Byte>
    requires p + |b| <= |d|
  {
    d[..p] + b + d[p + |b|..]
  }

  /** No 32-bit overflow in the bounds check of a produce call. */
  predicate ProduceFits(c: Ctl, n: nat) { c.rd > c.wr || c.wr + n < U32 }

  lemma FillParts(d: seq<Byte>, p: nat, b: seq<Byte>)
    requires p + |b| <= |d|
    ensures |Fill(d, p, b)| == |d|
    ensures forall i, j :: 0 <= i <= j <= p ==> Fill(d, p, b)[i..j] == d[i..j]
    ensures forall i, j :: p + |b| <= i <= j <= |d| ==> Fill(d, p, b)[i..j] == d[i..j]
    ensures Fill(d, p, b)[p..p + |b|] == b
  {}

  /** Where a region is granted and what the control words become, without the arithmetic. */
  lemma ProduceShape(c: Ctl, n: nat)
    requires Ok(c) && ProduceFits(c, n)
    ensures var r := Produce(c, n);
            && (r.at.None? ==> r.ctl == c)
            && (r.at.Some? ==> r.at.value + n <= c.size && Ok(r.ctl) && r.ctl.size == c.size)
            && (r.at.Some? && c.rd <= c.wr ==>
                  || (r.at.value == c.wr && r.ctl == c.(wr := c.wr + n) && c.rd <= r.ctl.wr)
                  || (r.at.value == c.wr && c.wr + n == c.size && r.ctl == c.(wr := 0) && c.rd > 0)
                  || (r.at.value == 0 && n < c.rd < c.wr && r.ctl == c.(cur := c.wr, wr := n))
                  || (r.at.value == 0 && n < c.rd == c.wr && r.ctl == c.(rd := 0, wr := n)))
            && (r.at.Some? && c.rd > c.wr ==> r.at.value == c.wr && c.wr + n < c.rd && r.ctl == c.(wr := c.wr + n))
  {}

  /** A granted region is in bounds and holds no unread byte, the new ring is well formed, and
      filling the region appends to the queue.  A refused call changes nothing. */
  lemma ProduceIsPush(c: Ctl, d: seq<Byte>, b: seq<Byte>)
    requires Ok(c) && |d| == c.size && ProduceFits(c, |b|)
    ensures var r := Produce(c, |b|);
            && (r.at.None? ==> r.ctl == c)
            && (r.at.Some? ==>
                  var p := r.at.value;
                  && p + |b| <= c.size
                  && (forall i :: p <= i < p + |b| ==> !IsUnread(c, i))
                  && Ok(r.ctl) && r.ctl.size == c.size
                  && Unread(r.ctl, Fill(d, p, b)) == Unread(c, d) + b)
  {
    var r, n := Produce(c, |b|), |b|;
    ProduceShape(c, n);
    if r.at.Some? {
      var p := r.at.value;
      var f := Fill(d, p, b);
      FillParts(d, p, b);
      if c.rd > c.wr {
        assert f[..c.wr + n] == f[0..c.wr] + f[c.wr..c.wr + n];
        assert f[0..c.wr] == d[..c.wr];
      } else if p == c.wr && r.ctl.wr == c.wr + n {
        assert f[c.rd..c.wr + n] == f[c.rd..c.wr] + f[c.wr..c.wr + n];
      } else if p == c.wr {
        assert f[c.rd..c.size] == f[c.rd..c.wr] + f[c.wr..c.wr + n];
      } else {
        assert f[..n] == f[0..0 + n];
      }
    }
  }

  /** Exactly when a region is granted: it fits behind the write position without making a full ring
      look empty, or in front of the read position.  An empty ring whose positions stand in the middle
      refuses a request that fits neither side. */
  lemma ProduceGrantsIff(c: Ctl, n: nat)
    requires Ok(c) && ProduceFits(c, n)
    ensures Produce(c, n).at.Some? <==>
              if c.rd > c.wr then n < c.rd - c.wr
              else c.wr + n < c.size || (c.wr + n == c.size && c.rd > 0) || n < c.rd
  {}

  /** A produce call grants a region in bounds exactly when its bounds check does not overflow. */
  lemma ProduceInBoundsIff(c: Ctl, n: nat)
    requires Ok(c) && n < U32 && Produce(c, n).at.Some?
    ensures Produce(c, n).at.value + n <= c.size <==> ProduceFits(c, n)
  {}

  /** A request near 2^32 that is granted although it reaches far beyond the buffer. */
  lemma ProduceOutOfBounds(n: nat)
    requires n == U32 - 4
    ensures var c := Ctl(16, 16, 0, 8);
            Ok(c) && Produce(c, n) == Grant(c.(wr := 4), Some(8)) && 8 + n > c.size
  {
    assert Add32(8, n) == 4;
  }

  /** A consumed region is in bounds and holds the first bytes of the queue, which are removed. */
  lemma ConsumeIsPop(c: Ctl, d: seq<Byte>, n: nat)
    requires Ok(c) && |d| == c.size && c.rd + n < U32
    ensures var r := Consume(c, n);
            && (r.at.None? ==> r.ctl == c)
            && (r.at.Some? <==> n <= ReadSize(c))
            && (r.at.Some? ==>
                  && r.at.value + n <= c.size && n <= |Unread(c, d)|
                  && d[r.at.value..r.at.value + n] == Unread(c, d)[..n]
                  && Ok(r.ctl) && r.ctl.size == c.size
                  && Unread(r.ctl, d) == Unread(c, d)[n..])
  {
    var r := Consume(c, n);
    if r.at.Some? && c.rd <= c.wr {
      assert d[c.rd..c.wr][..n] == d[c.rd..c.rd + n];
      assert d[c.rd..c.wr][n..] == d[c.rd + n..c.wr];
    } else if r.at.Some? {
      var q := Unread(c, d);
      assert q[..n] == d[c.rd..c.cur][..n] == d[c.rd..c.rd + n];
      assert q[n..] == d[c.rd + n..c.cur] + d[..c.wr];
    }
  }

  /** A consume call succeeds on bytes that are there exactly when its bounds check does not overflow. */
  lemma ConsumeInBoundsIff(c: Ctl, n: nat)
    requires Ok(c) && n < U32 && Consume(c, n).at.Some?
    ensures n <= ReadSize(c) <==> c.rd + n < U32
  {}

  /** The same for consume: far more bytes are handed out than are there. */
  lemma ConsumeOutOfBounds(n: nat)
    requires n == U32 - 4
    ensures var c := Ctl(16, 16, 4, 8);
            Ok(c) && Consume(c, n) == Grant(c.(rd := 0), Some(4)) && n > ReadSize(c) == 4
  {
    assert Add32(4, n) == 0;
  }

  /** The documented promise of the size getter for writing: a non-empty request up to that size
      is granted at the write position and does not shrink the ring. */
  lemma WriteSizeSuffices(c: Ctl, n: nat)
    requires Ok(c) && 0 < n <= WriteSize(c)
    ensures Produce(c, n).at == Some(c.wr) && Produce(c, n).ctl.cur == c.cur && ProduceFits(c, n)
  {}

  /** And the offer is exact: the requests granted at the write position, with the ring not shrunk, are
      those up to the offer. */
  lemma WriteSizeIsExact(c: Ctl, n: nat)
    requires Ok(c) && n > 0 && ProduceFits(c, n)
    ensures Produce(c, n).at == Some(c.wr) && Produce(c, n).ctl.cur == c.cur <==> n <= WriteSize(c)
  {}

  /** While the ring is not shrunk, two rounds of the size getter reach all but one free byte. */
  lemma WriteSizeTotal(c: Ctl, d: seq<Byte>)
    requires Ok(c) && c.cur == c.size && |d| == c.size
    ensures 0 <= WriteSize(c) && (WriteSize(c) == 0 <==> |Unread(c, d)| + 1 >= c.size)
    ensures c.size > 0 ==> WriteSize(c) <= c.size - 1 - |Unread(c, d)|
  {}

  // ------------------------------------------------------------------ every run refines a FIFO

  datatype Op = Put(bytes: seq<Byte>) | Get(n: nat)

  function OpSize(op: Op): nat { if op.Put? then |op.bytes| else op.n }

  /** Bytes accepted and bytes handed out so far, besides the ring itself. */
  datatype Trace = Trace(ctl: Ctl, data: seq<Byte>, put: seq<Byte>, got: seq<Byte>)

  ghost predicate TraceOk(t: Trace) { Ok(t.ctl) && |t.data| == t.ctl.size }

  /** One call by a client that fills what it is granted and reads what it consumes. */
  ghost function Step(t: Trace, op: Op): (t': Trace)
    requires TraceOk(t) && OpSize(op) + t.ctl.size < U32
    ensures TraceOk(t') && t'.ctl.size == t.ctl.size
  {
    match op
    case Put(b) =>
      ProduceIsPush(t.ctl, t.data, b);
      var r := Produce(t.ctl, |b|);
      if r.at.None? then t else Trace(r.ctl, Fill(t.data, r.at.value, b), t.put + b, t.got)
    case Get(n) =>
      ConsumeIsPop(t.ctl, t.data, n);
      var r := Consume(t.ctl, n);
      if r.at.None? then t
      else t.(ctl := r.ctl, got := t.got + t.data[r.at.value..r.at.value + n])
  }

  ghost function Run(t: Trace, ops: seq<Op>): (t': Trace)
    requires TraceOk(t) && forall i :: 0 <= i < |ops| ==> OpSize(ops[i]) + t.ctl.size < U32
    ensures TraceOk(t') && t'.ctl.size == t.ctl.size
  {
    if ops == [] then t else Step(Run(t, ops[..|ops| - 1]), ops[|ops| - 1])
  }

  ghost predicate Conserved(t: Trace)
    requires TraceOk(t)
  {
    t.put == t.got + Unread(t.ctl, t.data)
  }

  lemma Reassociate(got: seq<Byte>, q: seq<Byte>, b: seq<Byte>, n: nat)
    ensures got + q + b == got + (q + b)
    ensures n <= |q| ==> got + q == (got + q[..n]) + q[n..]
  {}

  lemma StepIsFifo(t: Trace, op: Op)
    requires TraceOk(t) && OpSize(op) + t.ctl.size < U32 && Conserved(t)
    ensures Conserved(Step(t, op))
  {
    var q := Unread(t.ctl, t.data);
    match op
    case Put(b) =>
      ProduceIsPush(t.ctl, t.data, b);
      Reassociate(t.got, q, b, 0);
      var r := Produce(t.ctl, |b|);
      if r.at.Some? { assert Step(t, op) == Trace(r.ctl, Fill(t.data, r.at.value, b), t.put + b, t.got); }
    case Get(n) =>
      ConsumeIsPop(t.ctl, t.data, n);
      Reassociate(t.got, q, [], n);
      var r := Consume(t.ctl, n);
      if r.at.Some? { assert Step(t, op).got == t.got + q[..n]; }
  }

  /** What one call adds to the bytes accepted and handed out. */
  lemma StepIs(t: Trace, op: Op)
    requires TraceOk(t) && OpSize(op) + t.ctl.size < U32
    ensures op.Put? ==>
              var r := Produce(t.ctl, |op.bytes|);
              && Step(t, op).ctl == r.ctl && Step(t, op).got == t.got
              && Step(t, op).put == t.put + if r.at.Some? then op.bytes else []
    ensures op.Get? ==>
              && Step(t, op).ctl == Consume(t.ctl, op.n).ctl && Step(t, op).put == t.put
              && Step(t, op).got == t.got + if op.n <= ReadSize(t.ctl) then Unread(t.ctl, t.data)[..op.n] else []
  {
    match op
    case Put(b) => ProduceIsPush(t.ctl, t.data, b);
    case Get(n) => ConsumeIsPop(t.ctl, t.data, n);
  }

  /** A run makes its calls one behind the other. */
  lemma RunNext(t: Trace, ops: seq<Op>, op: Op)
    requires TraceOk(t) && OpSize(op) + t.ctl.size < U32 && forall i :: 0 <= i < |ops| ==> OpSize(ops[i]) + t.ctl.size < U32
    ensures Run(t, []) == t && Run(t, ops + [op]) == Step(Run(t, ops), op)
  {
    assert (ops + [op])[..|ops|] == ops;
  }

  /** Over every run of produce and consume calls nothing is lost, repeated or reordered: what was
      handed out, followed by what is still unread, is what was accepted. */
  lemma {:induction false} RunIsFifo(t: Trace, ops: seq<Op>)
    requires TraceOk(t) && forall i :: 0 <= i < |ops| ==> OpSize(ops[i]) + t.ctl.size < U32
    requires t.put == t.got + Unread(t.ctl, t.data)
    ensures var t' := Run(t, ops); t'.put == t'.got + Unread(t'.ctl, t'.data)
  {
    if ops != [] {
      var last := |ops| - 1;
      RunIsFifo(t, ops[..last]);
      StepIsFifo(Run(t, ops[..last]), ops[last]);
    }
  }

  // ------------------------------------------------------------------ the ring in place

  class RingBuffer {
    var data: array<Byte>
    var size: nat
    var curSize: nat
    var rd: nat
    var wr: nat

    function Words(): Ctl
      reads this
    {
      Ctl(size, curSize, rd, wr)
    }

    ghost predicate Valid()
      reads this, data
    {
      Ok(Words()) && data.Length == size
    }

    ghost function Contents(): seq<Byte>
      reads this, data
      requires Valid()
    {
      Unread(Words(), data[..])
    }

    constructor (buffer: array<Byte>)
      requires buffer.Length < U32
      ensures Valid() && Contents() == [] && data == buffer && curSize == size == buffer.Length
    {
      data := buffer;
      size := buffer.Length;
      curSize := buffer.Length;
      rd := 0;
      wr := 0;
    }

    /** Reserves `n` bytes; the caller fills the region afterwards. */
    method ProduceRegion(n: nat) returns (ptr: Option<nat>)
      requires Valid() && n < U32
      modifies this`curSize, this`rd, this`wr
      ensures Grant(Words(), ptr) == Produce(old(Words()), n)
    {
      ptr := Some(wr);
      if rd <= wr {
        if Add32(wr, n) >= size {
          if rd == 0 { return None; }
          if Add32(wr, n) == size {
            wr := 0;
          } else {
            if n > rd - 1 { return None; }
            curSize := wr;
            wr := 0;
            ptr := Some(0);
            if rd == curSize {
              rd := 0;
              if curSize < size { curSize := size; }
            }
            wr := Add32(wr, n);
          }
        } else {
          wr := Add32(wr, n);
        }
      } else {
        if n > rd - wr - 1 { return None; }
        wr := Add32(wr, n);
      }
    }

    /** The client's copy into a region. */
    method Copy(p: nat, b: seq<Byte>)
      requires p + |b| <= data.Length
      modifies data
      ensures data[..] == Fill(old(data[..]), p, b)
    {
      ghost var d := data[..];
      var i := 0;
      while i < |b|
        invariant 0 <= i <= |b|
        invariant data[..p] == d[..p] && data[p..p + i] == b[..i] && data[p + |b|..] == d[p + |b|..]
      {
        data[p + i] := b[i];
        i := i + 1;
      }
      assert data[..] == data[..p] + data[p..p + |b|] + data[p + |b|..];
    }

    /** Produce a region and fill it, as every client of the ring does. */
    method Push(b: seq<Byte>) returns (ptr: Option<nat>)
      requires Valid() && |b| < U32 && ProduceFits(Words(), |b|)
      modifies this`curSize, this`rd, this`wr, data
      ensures Valid() && size == old(size)
      ensures Contents() == if ptr.Some? then old(Contents()) + b else old(Contents())
      ensures Grant(Words(), ptr) == Produce(old(Words()), |b|)
    {
      ProduceIsPush(Words(), data[..], b);
      ptr := ProduceRegion(|b|);
      if ptr.Some? { Copy(ptr.value, b); }
    }

    method ConsumeRegion(n: nat) returns (ptr: Option<nat>)
      requires Valid() && n < U32
      modifies this`curSize, this`rd
      ensures Grant(Words(), ptr) == Consume(old(Words()), n)
      ensures old(rd) + n < U32 ==>
                Valid() &&
                if n <= old(ReadSize(Words())) then
                  ptr.Some? && ptr.value + n <= size &&
                  data[ptr.value..ptr.value + n] == old(Contents())[..n] && Contents() == old(Contents())[n..]
                else ptr.None? && Contents() == old(Contents())
    {
      ghost var c := Words();
      ptr := Some(rd);
      if rd <= wr {
        if Add32(rd, n) > wr { return None; }
        rd := Add32(rd, n);
      } else {
        if Add32(rd, n) > curSize { return None; }
        if Add32(rd, n) == curSize {
          if curSize < size { curSize := size; }
          rd := 0;
        } else {
          rd := Add32(rd, n);
        }
      }
      if c.rd + n < U32 { ConsumeIsPop(c, data[..], n); }
    }
  }
}
