/** A stream of bit fields, least significant bit first, assembled into bytes. */
module BitStream {
  import opened Arithmetic
  import opened Basics

  /** The low `n` bits of a number, of a negative one in two's complement. */
  function FieldBits(v: int, n: nat): (s: seq<bool>)
    ensures |s| == n
    decreases n, v
  {
    if n == 0 then [] else [v % 2 == 1] + FieldBits(v / 2, n - 1)
  }

  function Value(s: seq<bool>): (v: nat)
    ensures v < Pow2(|s|)
  {
    if s == [] then 0 else (if s[0] then 1 else 0) + 2 * Value(s[1..])
  }

  function Bit(v: nat, i: nat): bool
    decreases i, v
  {
    if i == 0 then v % 2 == 1 else Bit(v / 2, i - 1)
  }

  function BitsOf(data: seq<Byte>): (s: seq<bool>)
    ensures |s| == 8 * |data|
  {
    if data == [] then [] else BitsOf(data[..|data| - 1]) + FieldBits(data[|data| - 1], 8)
  }

  lemma {:induction false} FieldBitsAt(v: nat, n: nat, i: nat)
    requires i < n
    ensures FieldBits(v, n)[i] == Bit(v, i)
  {
    if i > 0 { FieldBitsAt(v / 2, n - 1, i - 1); }
  }

  lemma HalfMod(v: int, m: nat)
    requires m > 0
    ensures v % (2 * m) == 2 * (v / 2 % m) + v % 2
  {
    var h, q := v / 2, v / 2 / m;
    assert h == q * m + h % m;
    assert 2 * (q * m) == q * (2 * m);
    DivUnique(v, q, 2 * (h % m) + v % 2, 2 * m);
  }

  /** A field is read back modulo its width. */
  lemma {:induction false} ValueOfField(v: int, n: nat)
    ensures Value(FieldBits(v, n)) == v % Pow2(n)
    decreases n
  {
    if n > 0 {
      ValueOfField(v / 2, n - 1);
      HalfMod(v, Pow2(n - 1));
      assert FieldBits(v, n)[1..] == FieldBits(v / 2, n - 1);
    }
  }

  /** Appending a bit above the others. */
  lemma {:induction false} FieldBitsSnoc(x: nat, k: nat, b: bool)
    requires x < Pow2(k)
    ensures FieldBits(x + (if b then Pow2(k) else 0), k + 1) == FieldBits(x, k) + [b]
  {
    var y := x + if b then Pow2(k) else 0;
    if k == 0 {
      assert FieldBits(y / 2, 0) == [];
    } else {
      FieldBitsSnoc(x / 2, k - 1, b);
      assert y % 2 == x % 2 && y / 2 == x / 2 + if b then Pow2(k - 1) else 0;
      assert FieldBits(x, k) + [b] == [x % 2 == 1] + (FieldBits(x / 2, k - 1) + [b]);
    }
  }

  /** The byte shift of the source: everything moves down one bit, the new bit enters at the top. */
  function Shifted(c: Byte, b: bool): Byte { c / 2 + if b then 0x80 else 0 }

  lemma ShiftIn(c: Byte, b: bool)
    ensures FieldBits(Shifted(c, b), 8) == FieldBits(c, 8)[1..] + [b]
  {
    assert Pow2(7) == 128;
    FieldBitsSnoc(c / 2, 7, b);
    assert FieldBits(c, 8)[1..] == FieldBits(c / 2, 7);
  }

  lemma BitsOfSnoc(data: seq<Byte>, b: Byte)
    ensures BitsOf(data + [b]) == BitsOf(data) + FieldBits(b, 8)
  {
    assert (data + [b])[..|data|] == data;
  }

  /** Bit `i` of byte `k` is bit `8 k + i`. */
  lemma {:induction false} BitsOfAt(data: seq<Byte>, k: nat, i: nat)
    requires k < |data| && i < 8
    ensures BitsOf(data)[8 * k + i] == Bit(data[k], i)
  {
    var n := |data| - 1;
    var front, last := BitsOf(data[..n]), FieldBits(data[n], 8);
    if k < n {
      BitsOfAt(data[..n], k, i);
      assert (front + last)[8 * k + i] == front[8 * k + i] && data[..n][k] == data[k];
    } else {
      FieldBitsAt(data[n], 8, i);
      assert (front + last)[8 * k + i] == last[i];
    }
  }

  /** The bits in a stream: whole bytes, then the top bits of the byte being filled. */
  ghost function Content(data: seq<Byte>, cur: Byte, pos: nat): seq<bool>
    requires pos <= 8
  {
    BitsOf(data) + FieldBits(cur, 8)[8 - pos..]
  }

  lemma PendingPush(cur: Byte, pos: nat, b: bool)
    requires pos < 8
    ensures FieldBits(Shifted(cur, b), 8)[7 - pos..] == FieldBits(cur, 8)[8 - pos..] + [b]
  {
    var top := FieldBits(cur, 8);
    ShiftIn(cur, b);
    assert (top[1..] + [b])[7 - pos..] == top[8 - pos..] + [b];
  }

  lemma ContentPush(data: seq<Byte>, cur: Byte, pos: nat, b: bool)
    requires pos < 8
    ensures var c := Shifted(cur, b);
            && Content(data, c, pos + 1) == Content(data, cur, pos) + [b]
            && (pos == 7 ==> Content(data + [c], 0, 0) == Content(data, cur, pos) + [b])
  {
    var c := Shifted(cur, b);
    PendingPush(cur, pos, b);
    Assoc(BitsOf(data), FieldBits(cur, 8)[8 - pos..], [b]);
    if pos == 7 {
      BitsOfSnoc(data, c);
      ContentWhole(data + [c]);
      assert FieldBits(c, 8)[0..] == FieldBits(c, 8);
    }
  }

  lemma ContentWhole(data: seq<Byte>)
    ensures Content(data, 0, 0) == BitsOf(data)
  {}

  lemma FieldRound(before: seq<bool>, v: int, n: nat)
    requires n > 0
    ensures before + FieldBits(v, n) == before + [v % 2 == 1] + FieldBits(v / 2, n - 1)
  {
    Assoc(before, [v % 2 == 1], FieldBits(v / 2, n - 1));
  }

  /** One call of `add_bits`. */
  datatype Field = Field(val: int, width: nat)

  function FieldsBits(fs: seq<Field>): seq<bool> {
    if fs == [] then []
    else FieldsBits(fs[..|fs| - 1]) + FieldBits(fs[|fs| - 1].val, fs[|fs| - 1].width)
  }

  lemma FieldsBitsSnoc(fs: seq<Field>, f: Field)
    ensures FieldsBits(fs + [f]) == FieldsBits(fs) + FieldBits(f.val, f.width)
  {
    assert (fs + [f])[..|fs|] == fs;
  }

  /** Where field `k` starts. */
  function Offset(fs: seq<Field>, k: nat): nat
    requires k <= |fs|
  {
    if k == 0 then 0 else Offset(fs, k - 1) + fs[k - 1].width
  }

  lemma {:induction false} OffsetPrefix(fs: seq<Field>, n: nat, k: nat)
    requires k <= n <= |fs|
    ensures Offset(fs[..n], k) == Offset(fs, k)
  {
    if k > 0 { OffsetPrefix(fs, n, k - 1); }
  }

  /** Every field of a list can be read back from the concatenated bits, modulo its width. */
  lemma {:induction false} ReadBack(fs: seq<Field>, k: nat)
    requires k < |fs|
    ensures |FieldsBits(fs)| == Offset(fs, |fs|)
    ensures Offset(fs, k + 1) <= |FieldsBits(fs)|
    ensures FieldsBits(fs)[Offset(fs, k)..Offset(fs, k + 1)] == FieldBits(fs[k].val, fs[k].width)
    ensures Value(FieldsBits(fs)[Offset(fs, k)..Offset(fs, k + 1)]) == fs[k].val % Pow2(fs[k].width)
  {
    var n := |fs| - 1;
    var front := fs[..n];
    ValueOfField(fs[k].val, fs[k].width);
    OffsetPrefix(fs, n, n);
    if k < n {
      ReadBack(front, k);
      OffsetPrefix(fs, n, k);
      OffsetPrefix(fs, n, k + 1);
    } else if n > 0 {
      ReadBack(front, 0);
    }
  }

  class Stream {
    var data: seq<Byte>
    var curbyte: Byte
    var bitpos: nat

    ghost predicate Valid()
      reads this
    {
      bitpos < 8
    }

    ghost function Bits(): seq<bool>
      requires Valid()
      reads this
    {
      Content(data, curbyte, bitpos)
    }

    constructor ()
      ensures Valid() && Bits() == []
    {
      data, curbyte, bitpos := [], 0, 0;
    }

    /** One round of the loop of the source. */
    method AddBit(b: bool)
      requires Valid()
      modifies this
      ensures Valid() && Bits() == old(Bits()) + [b]
    {
      ContentPush(data, curbyte, bitpos, b);
      var c := curbyte / 2;
      if b { c := c + 0x80; }
      assert c == Shifted(curbyte, b);
      curbyte := c;
      bitpos := bitpos + 1;
      if bitpos == 8 {
        bitpos := 0;
        data := data + [curbyte];
        curbyte := 0;
      }
    }

    method AddBits(val: int, bits: nat)
      requires Valid()
      modifies this
      ensures Valid() && Bits() == old(Bits()) + FieldBits(val, bits)
    {
      ghost var all := Bits() + FieldBits(val, bits);
      var v, i := val, 0;
      while i < bits
        invariant 0 <= i <= bits && Valid()
        invariant Bits() + FieldBits(v, bits - i) == all
      {
        FieldRound(Bits(), v, bits - i);
        AddBit(v % 2 == 1);
        v := v / 2;
        i := i + 1;
      }
      assert Bits() + [] == Bits();
    }

    function Size(): nat
      reads this
    {
      |data| * 8 + bitpos
    }

    lemma SizeIsBits()
      requires Valid()
      ensures Size() == |Bits()|
    {}
  }
}
