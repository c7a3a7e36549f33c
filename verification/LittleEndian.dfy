/** Numbers stored low byte first, as `int.to_bytes` and `struct.pack` store them. */
module LittleEndian {
  import opened Arithmetic
  import opened Basics

  /** The `k` low bytes of a number, of a negative one in two's complement. */
  function PutLE(v: int, k: nat): (s: seq<Byte>)
    ensures |s| == k
    decreases k, v
  {
    if k == 0 then [] else [v % 256] + PutLE(v / 256, k - 1)
  }

  function GetLE(s: seq<Byte>): nat {
    if s == [] then 0 else s[0] + 256 * GetLE(s[1..])
  }

  function Pow256(k: nat): (r: nat)
    ensures r > 0
  {
    if k == 0 then 1 else 256 * Pow256(k - 1)
  }

  lemma ByteMod(v: int, m: nat)
    requires m > 0
    ensures v % (256 * m) == 256 * (v / 256 % m) + v % 256
  {
    var h, q := v / 256, v / 256 / m;
    assert h == q * m + h % m;
    assert 256 * (q * m) == q * (256 * m);
    Arithmetic.DivUnique(v, q, 256 * (h % m) + v % 256, 256 * m);
  }

  /** A stored number is read back modulo its width, also a negative one. */
  lemma {:induction false} GetOfPut(v: int, k: nat)
    ensures GetLE(PutLE(v, k)) == v % Pow256(k)
    decreases k
  {
    if k > 0 {
      GetOfPut(v / 256, k - 1);
      ByteMod(v, Pow256(k - 1));
      assert PutLE(v, k)[1..] == PutLE(v / 256, k - 1);
    }
  }

  lemma Pow256Is(k: nat)
    requires k == 4
    ensures Pow256(k) == U32
  {
    assert Pow256(4) == 256 * Pow256(3) && Pow256(3) == 256 * Pow256(2);
    assert Pow256(2) == 256 * Pow256(1) && Pow256(1) == 256 * Pow256(0);
  }

  lemma WordRoundTrip(v: nat, k: nat)
    requires v < U32 && k == 4
    ensures GetLE(PutLE(v, k)) == v
  {
    Pow256Is(k);
    GetOfPut(v, k);
  }

  lemma HalfRoundTrip(v: nat, k: nat)
    requires v < 0x1_0000 && k == 2
    ensures GetLE(PutLE(v, k)) == v
  {
    assert Pow256(2) == 256 * Pow256(1) && Pow256(1) == 256 * Pow256(0);
    GetOfPut(v, k);
  }
}
