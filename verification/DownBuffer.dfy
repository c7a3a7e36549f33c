/** Host-to-target transfer over the trace ring: blocks from the host are stored as far as they fit,
    readers take contiguous pieces. */
module DownBuffer {
  import opened Basics
  import opened TraceRing

  /** Bytes a ring that holds `q` still accepts; one slot always stays free. */
  function Room(capacity: nat, q: seq<Byte>): nat {
    if |q| + 1 <= capacity then capacity - 1 - |q| else 0
  }

  /** The ring as this client keeps it: never shrunk, so the early-wrap branch was not taken. */
  ghost predicate Unshrunk(rb: RingBuffer)
    reads rb, rb.data
  {
    rb.Valid() && rb.curSize == rb.size
  }

  /** One round of the copy loop: a piece of the size the ring offers is always granted. */
  method WritePiece(rb: RingBuffer, piece: seq<Byte>)
    requires Unshrunk(rb) && 0 < |piece| <= WriteSize(rb.Words())
    modifies rb`curSize, rb`rd, rb`wr, rb.data
    ensures Unshrunk(rb) && rb.size == old(rb.size)
    ensures rb.Contents() == old(rb.Contents()) + piece
  {
    WriteSizeSuffices(rb.Words(), |piece|);
    var ptr := rb.Push(piece);
    assert ptr.Some?;   // the source's assert(false) branch
  }

  /** Takes a piece of at most the size the ring offers; it is always granted. */
  method ReadPiece(rb: RingBuffer, n: nat) returns (piece: seq<Byte>)
    requires Unshrunk(rb) && n <= ReadSize(rb.Words())
    modifies rb`curSize, rb`rd
    ensures Unshrunk(rb) && rb.size == old(rb.size)
    ensures |piece| == n && piece + rb.Contents() == old(rb.Contents())
    ensures n == old(ReadSize(rb.Words())) ==> rb.Contents() == [] || rb.rd == 0
  {
    ghost var q := rb.Contents();
    var ptr := rb.ConsumeRegion(n);
    assert ptr.Some?;   // the source's assert(false) branch
    piece := rb.data[ptr.value..ptr.value + n];
    Reassociate([], q, [], n);
  }

  lemma Offers(rb: RingBuffer)
    requires Unshrunk(rb)
    ensures 0 <= WriteSize(rb.Words()) <= Room(rb.size, rb.Contents())
    ensures WriteSize(rb.Words()) == 0 <==> Room(rb.size, rb.Contents()) == 0
    ensures 0 <= ReadSize(rb.Words()) <= |rb.Contents()| < U32
    ensures ReadSize(rb.Words()) == 0 <==> rb.Contents() == []
  {}

  lemma TakeMore(q: seq<Byte>, block: seq<Byte>, i: nat, j: nat, piece: seq<Byte>)
    requires i <= j <= |block| && piece == block[i..j]
    ensures q + block[..i] + piece == q + block[..j]
  {}

  lemma RoomLeft(capacity: nat, q: seq<Byte>, block: seq<Byte>, i: nat)
    requires i <= |block| && i <= Room(capacity, q)
    ensures Room(capacity, q + block[..i]) == Room(capacity, q) - i
  {}

  /** Stores one host block: exactly its first bytes that fit, in order. */
  method WriteBlock(rb: RingBuffer, block: seq<Byte>) returns (total: nat)
    requires Unshrunk(rb) && |block| < U32
    modifies rb`curSize, rb`rd, rb`wr, rb.data
    ensures Unshrunk(rb) && rb.size == old(rb.size)
    ensures total == Min(|block|, Room(rb.size, old(rb.Contents())))
    ensures rb.Contents() == old(rb.Contents()) + block[..total]
  {
    total := 0;
    ghost var q := rb.Contents();
    assert q + block[..0] == q;
    while total < |block|
      invariant Unshrunk(rb) && rb.size == old(rb.size)
      invariant total <= |block| && rb.Contents() == q + block[..total]
      invariant total <= Room(rb.size, q)
    {
      RoomLeft(rb.size, q, block, total);
      Offers(rb);
      var wrSz := WriteSize(rb.Words());
      if wrSz == 0 { break; }
      if wrSz > |block| - total { wrSz := |block| - total; }
      var piece, next := block[total..total + wrSz], total + wrSz;
      TakeMore(q, block, total, next, piece);
      WritePiece(rb, piece);
      total := next;
    }
  }

  /** What happens in one round of a waiting reader: the host has a block pending and the block swap
      succeeds or not, or the host is quiet and the timeout expires or not. */
  datatype HostEvent = Pending(block: seq<Byte>, swapped: bool) | Quiet(expired: bool)

  /** The queue after one round of an environment that found the queue `q`. */
  function DeliverOne(capacity: nat, q: seq<Byte>, e: HostEvent): seq<Byte> {
    if e.Pending? && e.swapped then q + e.block[..Min(|e.block|, Room(capacity, q))] else q
  }

  function Deliver(capacity: nat, q: seq<Byte>, events: seq<HostEvent>): seq<Byte> {
    if events == [] then q
    else DeliverOne(capacity, Deliver(capacity, q, events[..|events| - 1]), events[|events| - 1])
  }

  lemma DeliverNext(capacity: nat, q: seq<Byte>, events: seq<HostEvent>, i: nat)
    requires i < |events|
    ensures Deliver(capacity, q, events[..i + 1]) == DeliverOne(capacity, Deliver(capacity, q, events[..i]), events[i])
  {
    assert events[..i + 1][..i] == events[..i];
  }

  /** One round with an empty queue: a pending block is stored, a quiet host may use up the time. */
  method WaitRound(rb: RingBuffer, e: HostEvent) returns (expired: bool)
    requires Unshrunk(rb) && (e.Pending? ==> |e.block| < U32)
    modifies rb`curSize, rb`rd, rb`wr, rb.data
    ensures Unshrunk(rb) && rb.size == old(rb.size)
    ensures rb.Contents() == DeliverOne(rb.size, old(rb.Contents()), e)
    ensures expired <==> e == Quiet(true)
  {
    match e {
      case Pending(block, swapped) =>
        if swapped && |block| > 0 {
          var stored := WriteBlock(rb, block);
        }
        expired := false;
      case Quiet(late) => expired := late;
    }
  }

  /** A read of at most `want` bytes.  It returns the next bytes of the queue, fewer than wanted only
      when they are the last or end where the buffer does, or nothing when the timeout expires (or the
      listed events end) with the queue empty. */
  method GetBytes(rb: RingBuffer, want: nat, events: seq<HostEvent>) returns (got: Option<seq<Byte>>, used: nat)
    requires Unshrunk(rb) && want < U32
    requires forall i :: 0 <= i < |events| && events[i].Pending? ==> |events[i].block| < U32
    modifies rb`curSize, rb`rd, rb`wr, rb.data
    ensures Unshrunk(rb) && rb.size == old(rb.size) && used <= |events|
    ensures got.Some? ==>
              && got.value + rb.Contents() == Deliver(rb.size, old(rb.Contents()), events[..used])
              && |got.value| <= want && (want > 0 ==> |got.value| > 0)
              && (|got.value| < want ==> rb.Contents() == [] || rb.rd == 0)
    ensures got.None? ==>
              && rb.Contents() == Deliver(rb.size, old(rb.Contents()), events[..used]) == []
              && (used == |events| || (used > 0 && events[used - 1] == Quiet(true)))
    ensures old(rb.Contents()) != [] ==>
              got.Some? && used == 0 && |got.value| == Min(want, old(ReadSize(rb.Words())))
  {
    ghost var q := rb.Contents();
    used := 0;
    while true
      invariant used <= |events| && Unshrunk(rb) && rb.size == old(rb.size)
      invariant rb.Contents() == Deliver(rb.size, q, events[..used])
      invariant if used > 0 then q == [] else rb.Words() == old(rb.Words())
      decreases |events| - used
    {
      Offers(rb);
      var sz := ReadSize(rb.Words());
      if sz != 0 {
        var piece := ReadPiece(rb, Min(want, sz));
        return Some(piece), used;
      }
      if used == |events| { return None, used; }
      DeliverNext(rb.size, q, events, used);
      var expired := WaitRound(rb, events[used]);
      used := used + 1;
      if expired { return None, used; }
    }
  }

  // ------------------------------------------------------------------ runs of deliveries and reads

  /** A block arrives, or a reader gets bytes. */
  datatype Move = In(block: seq<Byte>) | Out(bytes: seq<Byte>)

  function Kept(capacity: nat, q: seq<Byte>, block: seq<Byte>): seq<Byte> {
    block[..Min(|block|, Room(capacity, q))]
  }

  function QueueAfter(capacity: nat, q: seq<Byte>, log: seq<Move>): seq<Byte> {
    if log == [] then q
    else
      var r := QueueAfter(capacity, q, log[..|log| - 1]);
      match log[|log| - 1]
      case In(block) => r + Kept(capacity, r, block)
      case Out(bytes) => if bytes <= r then r[|bytes|..] else r
  }

  /** Every reader got the bytes at the front of the queue. */
  predicate Legal(capacity: nat, q: seq<Byte>, log: seq<Move>) {
    log != [] ==>
      var rest := log[..|log| - 1];
      Legal(capacity, q, rest) && (log[|log| - 1].Out? ==> log[|log| - 1].bytes <= QueueAfter(capacity, q, rest))
  }

  /** All bytes stored, in order: of each block as many of its first bytes as fitted. */
  function AllStored(capacity: nat, q: seq<Byte>, log: seq<Move>): seq<Byte> {
    if log == [] then []
    else
      var rest := log[..|log| - 1];
      AllStored(capacity, q, rest)
      + if log[|log| - 1].In? then Kept(capacity, QueueAfter(capacity, q, rest), log[|log| - 1].block) else []
  }

  /** All bytes handed out, in order. */
  function AllRead(log: seq<Move>): seq<Byte> {
    if log == [] then []
    else AllRead(log[..|log| - 1]) + if log[|log| - 1].Out? then log[|log| - 1].bytes else []
  }

  /** Bytes handed out and bytes still unread are the bytes stored, in order. */
  lemma {:induction false} ReadsAreStored(capacity: nat, q: seq<Byte>, log: seq<Move>)
    requires Legal(capacity, q, log)
    ensures AllRead(log) + QueueAfter(capacity, q, log) == q + AllStored(capacity, q, log)
  {
    if log != [] {
      var rest := log[..|log| - 1];
      ReadsAreStored(capacity, q, rest);
      var r, s, t := QueueAfter(capacity, q, rest), AllStored(capacity, q, rest), AllRead(rest);
      match log[|log| - 1]
      case In(block) =>
        var k := Kept(capacity, r, block);
        assert t + [] + (r + k) == t + r + k == q + s + k == q + (s + k);
      case Out(bytes) =>
        assert r == bytes + r[|bytes|..];
        assert t + bytes + r[|bytes|..] == t + r == q + (s + []);
    }
  }

  lemma {:induction false} LogAppend(capacity: nat, q: seq<Byte>, log: seq<Move>, more: seq<Move>)
    ensures QueueAfter(capacity, q, log + more) == QueueAfter(capacity, QueueAfter(capacity, q, log), more)
    ensures Legal(capacity, q, log + more) <==> Legal(capacity, q, log) && Legal(capacity, QueueAfter(capacity, q, log), more)
    decreases |more|
  {
    if more == [] {
      assert log + more == log;
    } else {
      var n := |more| - 1;
      assert (log + more)[..|log| + n] == log + more[..n];
      LogAppend(capacity, q, log, more[..n]);
    }
  }

  /** The blocks that arrive while a reader waits. */
  function Arrivals(events: seq<HostEvent>): seq<Move> {
    if events == [] then []
    else
      var e := events[|events| - 1];
      Arrivals(events[..|events| - 1]) + if e.Pending? && e.swapped then [In(e.block)] else []
  }

  lemma {:induction false} ArrivalsDeliver(capacity: nat, q: seq<Byte>, events: seq<HostEvent>)
    ensures QueueAfter(capacity, q, Arrivals(events)) == Deliver(capacity, q, events)
    ensures Legal(capacity, q, Arrivals(events))
  {
    if events != [] {
      var rest, e := events[..|events| - 1], events[|events| - 1];
      ArrivalsDeliver(capacity, q, rest);
      if e.Pending? && e.swapped {
        assert (Arrivals(rest) + [In(e.block)])[..|Arrivals(rest)|] == Arrivals(rest);
      } else {
        assert Arrivals(rest) + [] == Arrivals(rest);
      }
    }
  }

  /** A block swapped in at any time, or a read of at most `want` bytes during which `events` happen. */
  datatype Op = Swap(block: seq<Byte>) | Fetch(want: nat, events: seq<HostEvent>)

  predicate OpOk(op: Op) {
    match op
    case Swap(block) => |block| < U32
    case Fetch(want, events) => want < U32 && forall i :: 0 <= i < |events| && events[i].Pending? ==> |events[i].block| < U32
  }

  /** What an operation adds to the log: a read that used `used` events and got `got`. */
  function Moves(op: Op, used: nat, got: Option<seq<Byte>>): seq<Move> {
    match op
    case Swap(block) => [In(block)]
    case Fetch(_, events) => Arrivals(events[..Min(used, |events|)]) + if got.Some? then [Out(got.value)] else []
  }

  lemma FetchMoves(capacity: nat, q: seq<Byte>, events: seq<HostEvent>, got: Option<seq<Byte>>, after: seq<Byte>)
    requires if got.Some? then got.value + after == Deliver(capacity, q, events) else after == Deliver(capacity, q, events)
    ensures var log := Arrivals(events) + if got.Some? then [Out(got.value)] else [];
            QueueAfter(capacity, q, log) == after && Legal(capacity, q, log)
  {
    ArrivalsDeliver(capacity, q, events);
    if got.Some? {
      var log := Arrivals(events) + [Out(got.value)];
      assert log[..|log| - 1] == Arrivals(events);
      assert got.value <= got.value + after && (got.value + after)[|got.value|..] == after;
    } else {
      assert Arrivals(events) + [] == Arrivals(events);
    }
  }

  /** One operation on the ring. */
  method Operate(rb: RingBuffer, op: Op) returns (got: Option<seq<Byte>>, used: nat)
    requires Unshrunk(rb) && OpOk(op)
    modifies rb`curSize, rb`rd, rb`wr, rb.data
    ensures Unshrunk(rb) && rb.size == old(rb.size)
    ensures Legal(rb.size, old(rb.Contents()), Moves(op, used, got))
    ensures rb.Contents() == QueueAfter(rb.size, old(rb.Contents()), Moves(op, used, got))
    ensures op.Swap? ==> got.None?
    ensures op.Fetch? && old(rb.Contents()) != [] && op.want > 0 ==> got.Some? && |got.value| > 0
  {
    ghost var q := rb.Contents();
    match op {
      case Swap(block) =>
        assert [In(block)][..0] == [];
        var stored := WriteBlock(rb, block);
        got, used := None, 0;
      case Fetch(want, events) =>
        got, used := GetBytes(rb, want, events);
        FetchMoves(rb.size, q, events[..used], got, rb.Contents());
    }
  }

  function LogOf(ops: seq<Op>, used: seq<nat>, got: seq<Option<seq<Byte>>>): seq<Move>
    requires |ops| == |used| == |got|
  {
    if ops == [] then []
    else
      var n := |ops| - 1;
      LogOf(ops[..n], used[..n], got[..n]) + Moves(ops[n], used[n], got[n])
  }

  /** Any run of swaps and reads: the readers together get the bytes that were stored, in order and
      without loss, up to what is still unread. */
  method Transfer(rb: RingBuffer, ops: seq<Op>) returns (got: seq<Option<seq<Byte>>>, used: seq<nat>)
    requires Unshrunk(rb) && forall k :: 0 <= k < |ops| ==> OpOk(ops[k])
    modifies rb`curSize, rb`rd, rb`wr, rb.data
    ensures Unshrunk(rb) && rb.size == old(rb.size) && |got| == |used| == |ops|
    ensures var log := LogOf(ops, used, got);
            && Legal(rb.size, old(rb.Contents()), log) && rb.Contents() == QueueAfter(rb.size, old(rb.Contents()), log)
            && AllRead(log) + rb.Contents() == old(rb.Contents()) + AllStored(rb.size, old(rb.Contents()), log)
  {
    ghost var q := rb.Contents();
    got, used := [], [];
    for k := 0 to |ops|
      invariant Unshrunk(rb) && rb.size == old(rb.size) && |got| == |used| == k
      invariant Legal(rb.size, q, LogOf(ops[..k], used, got))
      invariant rb.Contents() == QueueAfter(rb.size, q, LogOf(ops[..k], used, got))
    {
      ghost var log := LogOf(ops[..k], used, got);
      var g, u := Operate(rb, ops[k]);
      LogAppend(rb.size, q, log, Moves(ops[k], u, g));
      LogNext(ops, k, used, got, u, g);
      got, used := got + [g], used + [u];
    }
    assert ops[..|ops|] == ops;
    ReadsAreStored(rb.size, q, LogOf(ops, used, got));
  }

  lemma LogNext(ops: seq<Op>, k: nat, used: seq<nat>, got: seq<Option<seq<Byte>>>, u: nat, g: Option<seq<Byte>>)
    requires k < |ops| && |used| == |got| == k
    ensures LogOf(ops[..k + 1], used + [u], got + [g]) == LogOf(ops[..k], used, got) + Moves(ops[k], u, g)
  {
    assert ops[..k + 1][..k] == ops[..k] && (used + [u])[..k] == used && (got + [g])[..k] == got;
  }
}
