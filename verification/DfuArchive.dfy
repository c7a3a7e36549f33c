/** The DFU archive writer: files are cut into parts, described by an index file, and stored as
    entries of a CPIO archive ("new ASCII" format) with hexadecimal lengths and 4-byte padding. */
module DfuArchive {
  import opened Arithmetic
  import opened Basics
  import opened LittleEndian

  type Bytes = seq<Byte>

  // ------------------------------------------------------------------ hexadecimal fields

  function HexDigit(d: nat): Byte
    requires d < 16
  {
    if d < 10 then 0x30 + d else 0x61 + d - 10
  }

  function DigitValue(c: Byte): nat {
    if 0x30 <= c <= 0x39 then c - 0x30 else if 0x61 <= c <= 0x66 then c - 0x61 + 10 else 0
  }

  /** The last `k` hexadecimal digits of a number. */
  function Hex(v: nat, k: nat): (s: Bytes)
    ensures |s| == k
  {
    if k == 0 then [] else Hex(v / 16, k - 1) + [HexDigit(v % 16)]
  }

  function FromHex(s: Bytes): nat {
    if s == [] then 0 else FromHex(s[..|s| - 1]) * 16 + DigitValue(s[|s| - 1])
  }

  function Pow16(k: nat): (r: nat)
    ensures r > 0
  {
    if k == 0 then 1 else 16 * Pow16(k - 1)
  }

  lemma {:induction false} HexRoundTrip(v: nat, k: nat)
    requires v < Pow16(k)
    ensures FromHex(Hex(v, k)) == v
  {
    if k > 0 {
      HexRoundTrip(v / 16, k - 1);
      var s := Hex(v, k);
      assert s[..k - 1] == Hex(v / 16, k - 1);
    }
  }

  lemma Pow16Is(k: nat)
    requires k == 8
    ensures Pow16(k) == U32
  {
    assert Pow16(8) == 16 * Pow16(7) && Pow16(7) == 16 * Pow16(6) && Pow16(6) == 16 * Pow16(5) && Pow16(5) == 16 * Pow16(4);
    assert Pow16(4) == 16 * Pow16(3) && Pow16(3) == 16 * Pow16(2) && Pow16(2) == 16 * Pow16(1) && Pow16(1) == 16 * Pow16(0);
  }

  /** An 8-byte header field: the first eight digits of a number, with leading zeros up to eight. */
  function Field(v: nat): (s: Bytes)
    ensures |s| == 8
  {
    if v < U32 then Hex(v, 8) else Field(v / 16)
  }

  lemma {:induction false} HexBound(v: nat, k: nat)
    ensures FromHex(Hex(v, k)) < Pow16(k)
  {
    if k > 0 {
      HexBound(v / 16, k - 1);
      assert Hex(v, k)[..k - 1] == Hex(v / 16, k - 1);
    }
  }

  /** A field is read back exactly when the number fits eight digits. */
  lemma {:induction false} FieldReadsIff(v: nat)
    ensures FromHex(Field(v)) < U32 && (FromHex(Field(v)) == v <==> v < U32)
  {
    Pow16Is(8);
    if v < U32 { HexRoundTrip(v, 8); HexBound(v, 8); } else { FieldReadsIff(v / 16); }
  }

  // ------------------------------------------------------------------ entries

  function Zeros(n: nat): (s: Bytes)
    ensures |s| == n
  {
    seq(n, _ => 0)
  }

  function RoundUp(n: nat, multiple: nat): (r: nat)
    requires multiple > 0
    ensures n <= r < n + multiple && r % multiple == 0
  {
    var t := n + multiple - 1;
    assert t == t / multiple * multiple + t % multiple;
    Multiple(t / multiple, multiple);
    t / multiple * multiple
  }

  function PadBytes(b: Bytes, multiple: nat): (r: Bytes)
    requires multiple > 0
    ensures |b| <= |r| < |b| + multiple && |r| % multiple == 0 && |r| == RoundUp(|b|, multiple)
    ensures r[..|b|] == b && forall i :: |b| <= i < |r| ==> r[i] == 0
  {
    b + Zeros(RoundUp(|b|, multiple) - |b|)
  }

  const MAGIC: Bytes := [0x30, 0x37, 0x30, 0x37, 0x30, 0x31]

  /** The thirteen numbers of an entry header. */
  function HeaderNumbers(nameLen: nat, fileLen: nat, trailer: bool): (ns: seq<nat>)
    ensures |ns| == 13
  {
    var mode := if trailer then 0 else 0x81A4;
    var links := if trailer then 1 else 0;
    [0, mode, 0, 0, links, 0, fileLen, 0, 0, 0, 0, nameLen, 0]
  }

  function Fields(ns: seq<nat>): (s: Bytes)
    ensures |s| == 8 * |ns|
  {
    if ns == [] then [] else Fields(ns[..|ns| - 1]) + Field(ns[|ns| - 1])
  }

  lemma {:induction false} FieldsAt(ns: seq<nat>, k: nat)
    requires k < |ns|
    ensures Fields(ns)[8 * k..8 * k + 8] == Field(ns[k])
  {
    var n := |ns| - 1;
    var front := Fields(ns[..n]);
    if k < n {
      FieldsAt(ns[..n], k);
      assert Fields(ns)[8 * k..8 * k + 8] == front[8 * k..8 * k + 8];
    }
  }

  /** The 110 bytes of an entry header: magic and thirteen 8-digit fields. */
  function Header(nameLen: nat, fileLen: nat, trailer: bool): (h: Bytes)
    ensures |h| == 110
  {
    MAGIC + Fields(HeaderNumbers(nameLen, fileLen, trailer))
  }

  /** One archive entry; the name is stored with a terminator. */
  function Entry(name: Bytes, data: Bytes, trailer: bool): Bytes {
    var stored := name + [0];
    PadBytes(Header(|stored|, |data|, trailer) + stored, 4) + PadBytes(data, 4)
  }

  // ------------------------------------------------------------------ reading an archive

  datatype Item = Item(name: Bytes, data: Bytes)

  /** Reads the entry at the front by its own length fields; gives the item and the rest. */
  function ReadEntry(a: Bytes): (r: Option<(Item, Bytes)>)
    ensures r.Some? ==> |r.value.1| < |a|
  {
    if |a| < 110 || a[..6] != MAGIC then None
    else
      var fileLen, nameLen := FromHex(a[54..62]), FromHex(a[94..102]);
      var dataAt := RoundUp(110 + nameLen, 4);
      var end := dataAt + RoundUp(fileLen, 4);
      if nameLen == 0 || end > |a| then None
      else Some((Item(a[110..110 + nameLen - 1], a[dataAt..dataAt + fileLen]), a[end..]))
  }

  /** The number in field `k` of a header, counted from the magic on. */
  function FieldValue(h: Bytes, k: nat): nat
    requires |h| == 110 && k < 13
  {
    FromHex(h[6 + 8 * k..14 + 8 * k])
  }

  lemma FieldValueIff(nameLen: nat, fileLen: nat, trailer: bool, k: nat)
    requires k < 13
    ensures var h, v := Header(nameLen, fileLen, trailer), HeaderNumbers(nameLen, fileLen, trailer)[k];
            FieldValue(h, k) == v <==> v < U32
  {
    var ns := HeaderNumbers(nameLen, fileLen, trailer);
    FieldsAt(ns, k);
    assert Header(nameLen, fileLen, trailer)[6 + 8 * k..14 + 8 * k] == Fields(ns)[8 * k..8 * k + 8];
    FieldReadsIff(ns[k]);
  }

  /** The magic, and both sizes as far as they fit. */
  lemma HeaderFields(nameLen: nat, fileLen: nat, trailer: bool)
    ensures var h := Header(nameLen, fileLen, trailer);
            && h[..6] == MAGIC
            && (FromHex(h[54..62]) == fileLen <==> fileLen < U32) && (FromHex(h[94..102]) == nameLen <==> nameLen < U32)
  {
    FieldValueIff(nameLen, fileLen, trailer, 6);
    FieldValueIff(nameLen, fileLen, trailer, 11);
  }

  /** The other fields: a regular file with permissions 0644 has its mode, the trailer its one link, and
      all else is zero. */
  lemma HeaderRest(nameLen: nat, fileLen: nat, trailer: bool, k: nat)
    requires k < 13 && k != 6 && k != 11
    ensures FieldValue(Header(nameLen, fileLen, trailer), k)
            == if k == 1 && !trailer then 8 * 0x1000 + 6 * 64 + 4 * 8 + 4 else if k == 4 && trailer then 1 else 0
  {
    FieldValueIff(nameLen, fileLen, trailer, k);
  }

  /** Where the parts of an entry lie. */
  lemma Slices(a: Bytes, h: Bytes, name: Bytes, z: Bytes, data: Bytes, z2: Bytes, rest: Bytes, at: nat, end: nat)
    requires |h| == 110 && at == 111 + |name| + |z| && end == at + |data| + |z2|
    requires a == (h + (name + [0]) + z) + (data + z2) + rest
    ensures |a| >= end >= at && a[..110] == h && a[110..110 + |name|] == name
    ensures a[at..at + |data|] == data && a[end..] == rest
  {
    assert a == h + (name + ([0] + z + (data + z2) + rest));
    assert a[110..] == name + ([0] + z + (data + z2) + rest);
    assert a[110..110 + |name|] == a[110..][..|name|];
    assert a[at..] == data + (z2 + rest);
    assert a[at..at + |data|] == a[at..][..|data|];
    assert a[end..] == a[at..][|data| + |z2|..];
  }

  lemma SubSlice(a: Bytes, h: Bytes, i: nat, j: nat)
    requires i <= j <= |h| <= |a| && a[..|h|] == h
    ensures a[i..j] == h[i..j]
  {
    assert forall k :: i <= k < j ==> a[k] == a[..|h|][k];
  }

  lemma ReadWhen(a: Bytes, name: Bytes, data: Bytes, rest: Bytes, dataAt: nat, end: nat)
    requires |a| >= 110 && a[..6] == MAGIC
    requires FromHex(a[54..62]) == |data| && FromHex(a[94..102]) == |name| + 1
    requires dataAt == RoundUp(111 + |name|, 4) && end == dataAt + RoundUp(|data|, 4) <= |a|
    requires a[110..110 + |name|] == name && a[dataAt..dataAt + |data|] == data && a[end..] == rest
    ensures ReadEntry(a) == Some((Item(name, data), rest))
  {}

  /** An entry with lengths below 2^32 is read back, whatever follows it. */
  lemma ReadBack(name: Bytes, data: Bytes, trailer: bool, rest: Bytes)
    requires |name| + 1 < U32 && |data| < U32
    ensures ReadEntry(Entry(name, data, trailer) + rest) == Some((Item(name, data), rest))
  {
    var nameLen, fileLen := |name| + 1, |data|;
    var h := Header(nameLen, fileLen, trailer);
    var dataAt, stored := RoundUp(110 + nameLen, 4), RoundUp(fileLen, 4);
    var z, z2 := Zeros(dataAt - 110 - nameLen), Zeros(stored - fileLen);
    var a := (h + (name + [0]) + z) + (data + z2) + rest;
    Slices(a, h, name, z, data, z2, rest, dataAt, dataAt + stored);
    HeaderFields(nameLen, fileLen, trailer);
    SubSlice(a, h, 0, 6);
    SubSlice(a, h, 54, 62);
    SubSlice(a, h, 94, 102);
    ReadWhen(a, name, data, rest, dataAt, dataAt + stored);
  }

  /** "TRAILER!!!" */
  const TRAILER: Bytes := [0x54, 0x52, 0x41, 0x49, 0x4C, 0x45, 0x52, 0x21, 0x21, 0x21]

  /** "dfuinfo0.dat" */
  const INDEX_NAME: Bytes := [0x64, 0x66, 0x75, 0x69, 0x6E, 0x66, 0x6F, 0x30, 0x2E, 0x64, 0x61, 0x74]

  /** Reads entries up to the trailer; gives the items before it and what follows it. */
  function Walk(a: Bytes): Option<(seq<Item>, Bytes)>
    decreases |a|
  {
    match ReadEntry(a)
    case None => None
    case Some((item, rest)) =>
      if item.name == TRAILER then Some(([], rest))
      else match Walk(rest)
        case None => None
        case Some((items, end)) => Some(([item] + items, end))
  }

  function Archive(items: seq<Item>): Bytes {
    if items == [] then Entry(TRAILER, [], true)
    else Entry(items[0].name, items[0].data, false) + Archive(items[1..])
  }

  ghost predicate Storable(items: seq<Item>) {
    forall i :: 0 <= i < |items| ==> |items[i].name| + 1 < U32 && |items[i].data| < U32
  }

  /** The items before the first one that bears the name of the trailer. */
  function UpToTrailer(items: seq<Item>): seq<Item> {
    if items == [] || items[0].name == TRAILER then [] else [items[0]] + UpToTrailer(items[1..])
  }

  lemma WalkOne(name: Bytes, data: Bytes, trailer: bool, more: Bytes)
    requires |name| + 1 < U32 && |data| < U32
    ensures Walk(Entry(name, data, trailer) + more) ==
            if name == TRAILER then Some(([], more))
            else if Walk(more).None? then None
            else Some(([Item(name, data)] + Walk(more).value.0, Walk(more).value.1))
  {
    ReadBack(name, data, trailer, more);
  }

  lemma WalkFirst(x: Item, tail: Bytes, rest: Bytes, archive: Bytes)
    requires |x.name| + 1 < U32 && |x.data| < U32 && archive == Entry(x.name, x.data, false) + tail
    ensures Walk(archive + rest) ==
            if x.name == TRAILER then Some(([], tail + rest))
            else if Walk(tail + rest).None? then None
            else Some(([x] + Walk(tail + rest).value.0, Walk(tail + rest).value.1))
  {
    Assoc(Entry(x.name, x.data, false), tail, rest);
    WalkOne(x.name, x.data, false, tail + rest);
  }

  lemma WalkLast(items: seq<Item>, name: Bytes, data: Bytes, rest: Bytes)
    requires items == [] && name == TRAILER && data == []
    ensures Walk(Archive(items) + rest) == Some((items, rest))
  {
    WalkOne(name, data, true, rest);
  }

  lemma {:induction false} WalkFinds(items: seq<Item>, rest: Bytes)
    requires Storable(items)
    ensures var w := Walk(Archive(items) + rest);
            w.Some? && w.value.0 == UpToTrailer(items) && (UpToTrailer(items) == items ==> w.value.1 == rest)
  {
    if items == [] {
      WalkLast(items, TRAILER, [], rest);
    } else {
      var x := items[0];
      WalkFirst(x, Archive(items[1..]), rest, Archive(items));
      if x.name != TRAILER {
        WalkFinds(items[1..], rest);
        assert items == [x] + items[1..];
      }
    }
  }

  lemma {:induction false} UpToTrailerIff(items: seq<Item>)
    ensures UpToTrailer(items) == items <==> forall i :: 0 <= i < |items| ==> items[i].name != TRAILER
  {
    if items != [] {
      UpToTrailerIff(items[1..]);
      assert items == [items[0]] + items[1..];
    }
  }

  /** Walking an archive by its own length fields gives back the items in order and ends at the
      trailer, exactly when no item bears the name of the trailer. */
  lemma WalkRecoversIff(items: seq<Item>, rest: Bytes)
    requires Storable(items)
    ensures Walk(Archive(items) + rest) == Some((items, rest))
       <==> forall i :: 0 <= i < |items| ==> items[i].name != TRAILER
  {
    WalkFinds(items, rest);
    UpToTrailerIff(items);
  }

  // ------------------------------------------------------------------ parts of a file

  /** A file cut into parts of `size` bytes; the last one may be shorter. */
  function Parts(content: Bytes, size: nat): (ps: seq<Bytes>)
    requires size > 0
    decreases |content|
  {
    if content == [] then []
    else if |content| <= size then [content]
    else [content[..size]] + Parts(content[size..], size)
  }

  /** The parts are the file, and each but the last has full size. */
  lemma {:induction false} PartsJoin(content: Bytes, size: nat)
    requires size > 0
    ensures Concat(Parts(content, size)) == content
    ensures forall i :: 0 <= i < |Parts(content, size)| ==> 0 < |Parts(content, size)[i]| <= size
    ensures forall i :: 0 <= i < |Parts(content, size)| - 1 ==> |Parts(content, size)[i]| == size
    decreases |content|
  {
    if content != [] {
      if |content| <= size {
        assert [content][..0] == [] && Concat([content]) == [] + content == content;
      } else {
        var rest := Parts(content[size..], size);
        PartsJoin(content[size..], size);
        ConcatCons(content[..size], rest);
        assert content[..size] + content[size..] == content;
      }
    }
  }

  function Decimal(n: nat): Bytes {
    if n < 10 then [0x30 + n] else Decimal(n / 10) + [0x30 + n % 10]
  }

  function FromDecimal(s: Bytes): nat {
    if s == [] then 0 else FromDecimal(s[..|s| - 1]) * 10 + DigitValue(s[|s| - 1])
  }

  /** Decimal digits without a leading zero, but for zero itself. */
  lemma {:induction false} DecimalIs(n: nat)
    ensures FromDecimal(Decimal(n)) == n && Decimal(n) != [] && (n > 0 ==> Decimal(n)[0] != 0x30)
    ensures forall i :: 0 <= i < |Decimal(n)| ==> 0x30 <= Decimal(n)[i] <= 0x39
  {
    if n >= 10 {
      DecimalIs(n / 10);
      var s := Decimal(n);
      assert s[..|s| - 1] == Decimal(n / 10);
    } else {
      assert Decimal(n)[..0] == [];
    }
  }

  /** Name of part `i`: the first bears the name of the file, the others have a number behind it. */
  function PartName(name: Bytes, i: nat): Bytes {
    if i == 0 then name else name + [0x2E] + Decimal(i)
  }

  /** Behind the first part the name is that of the file, a point and the number of the part. */
  lemma PartNameIs(name: Bytes, i: nat)
    ensures PartName(name, 0) == name
    ensures var p, k := PartName(name, i), |name|;
            i > 0 ==>
              && |p| > k + 1 && p[..k] == name && p[k] == 0x2E && p[k + 1] != 0x30
              && FromDecimal(p[k + 1..]) == i && forall j :: k < j < |p| ==> 0x30 <= p[j] <= 0x39
  {
    var p, k := PartName(name, i), |name|;
    DecimalIs(i);
    if i > 0 {
      assert p[k + 1..] == Decimal(i) && p[..k] == name;
      assert forall j :: k < j < |p| ==> p[j] == Decimal(i)[j - k - 1];
    }
  }

  /** So the parts of a file have different names. */
  lemma PartNamesDiffer(name: Bytes, i: nat, j: nat)
    requires i != j
    ensures PartName(name, i) != PartName(name, j)
  {
    PartNameIs(name, i);
    PartNameIs(name, j);
  }

  /** What the index says of one entry. */
  datatype Info = Info(address: nat, flags: nat, name: Bytes, md5: Bytes)

  /** The digest function is a parameter of the writer. */
  type Digest = Bytes -> Bytes

  function Md5Of(md5: Digest, b: Bytes): Bytes {
    md5(b)
  }

  function ItemsFrom(name: Bytes, parts: seq<Bytes>, i: nat): (r: seq<Item>)
    requires i <= |parts|
    ensures |r| == |parts| - i
    decreases |parts| - i
  {
    if i == |parts| then [] else [Item(PartName(name, i), parts[i])] + ItemsFrom(name, parts, i + 1)
  }

  /** Where part `i` goes: behind the parts before it. */
  function AddressOf(base: nat, parts: seq<Bytes>, i: nat): nat
    requires i <= |parts|
  {
    if i == 0 then base else AddressOf(base, parts, i - 1) + |parts[i - 1]|
  }

  function InfosFrom(base: nat, name: Bytes, parts: seq<Bytes>, i: nat, md5: Digest): (r: seq<Info>)
    requires i <= |parts|
    ensures |r| == |parts| - i
    decreases |parts| - i
  {
    if i == |parts| then []
    else [Info(AddressOf(base, parts, i), 0, PartName(name, i), Md5Of(md5, parts[i]))]
         + InfosFrom(base, name, parts, i + 1, md5)
  }

  lemma {:induction false} AddressIs(base: nat, parts: seq<Bytes>, k: nat)
    requires k <= |parts|
    ensures AddressOf(base, parts, k) == base + |Concat(parts[..k])|
  {
    if k > 0 {
      AddressIs(base, parts, k - 1);
      ConcatAppend(parts[..k - 1], parts[k - 1]);
      assert parts[..k] == parts[..k - 1] + [parts[k - 1]];
    }
  }

  /** Every part is indexed at the address of the file plus the bytes before it. */
  lemma {:induction false} InfoAt(base: nat, name: Bytes, parts: seq<Bytes>, i: nat, md5: Digest, k: nat)
    requires i <= k < |parts|
    ensures InfosFrom(base, name, parts, i, md5)[k - i]
            == Info(base + |Concat(parts[..k])|, 0, PartName(name, k), md5(parts[k]))
    decreases k - i
  {
    if i < k {
      InfoAt(base, name, parts, i + 1, md5, k);
    } else {
      AddressIs(base, parts, k);
    }
  }

  lemma {:induction false} ItemAt(name: Bytes, parts: seq<Bytes>, i: nat, k: nat)
    requires i <= k < |parts|
    ensures ItemsFrom(name, parts, i)[k - i] == Item(PartName(name, k), parts[k])
    decreases k - i
  {
    if i < k { ItemAt(name, parts, i + 1, k); }
  }

  // ------------------------------------------------------------------ the writer

  /** A fixed-size text field: cut or filled with zeros. */
  function Fixed(b: Bytes, n: nat): (s: Bytes)
    ensures |s| == n
  {
    if |b| >= n then b[..n] else b + Zeros(n - |b|)
  }

  /** The 88 bytes of one index record. */
  function Record(i: Info): (r: Bytes)
    ensures |r| == 88
  {
    PutLE(i.address, 4) + PutLE(i.flags, 4) + Fixed(i.name, 64) + Fixed(i.md5, 16)
  }

  function Records(index: seq<Info>): (r: Bytes)
    ensures |r| == 88 * |index|
  {
    if index == [] then [] else Records(index[..|index| - 1]) + Record(index[|index| - 1])
  }

  /** The text of a field: its bytes before the first zero. */
  function TextOf(field: Bytes): Bytes {
    if field == [] || field[0] == 0 then [] else [field[0]] + TextOf(field[1..])
  }

  lemma {:induction false} TextOfPrefix(b: Bytes, more: Bytes)
    requires 0 !in b && (more == [] || more[0] == 0)
    ensures TextOf(b + more) == b
  {
    if b == [] {
      assert b + more == more;
    } else {
      assert (b + more)[1..] == b[1..] + more;
      TextOfPrefix(b[1..], more);
    }
  }

  lemma {:induction false} TextHasNoZero(b: Bytes)
    ensures 0 !in TextOf(b) && |TextOf(b)| <= |b|
  {
    if b != [] { TextHasNoZero(b[1..]); }
  }

  /** A name fits its field exactly when it is no longer than the field and has no zero byte. */
  lemma TextOfFixedIff(b: Bytes, n: nat)
    ensures TextOf(Fixed(b, n)) == b <==> |b| <= n && 0 !in b
  {
    TextHasNoZero(Fixed(b, n));
    if |b| <= n && 0 !in b {
      TextOfPrefix(b, Zeros(n - |b|));
      assert Fixed(b, n) == b + Zeros(n - |b|);
    }
  }

  function ReadRecord(r: Bytes): Info
    requires |r| == 88
  {
    Info(GetLE(r[..4]), GetLE(r[4..8]), TextOf(r[8..72]), r[72..88])
  }

  lemma RecordFields(a: Bytes, f: Bytes, n: Bytes, m: Bytes)
    requires |a| == |f| == 4 && |n| == 64 && |m| == 16
    ensures var r := a + f + n + m; r[..4] == a && r[4..8] == f && r[8..72] == n && r[72..88] == m
  {}

  /** `struct.pack` takes the record. */
  predicate Packable(i: Info) {
    i.address < U32 && i.flags < U32
  }

  /** A packed record reads back exactly when its name fits the 64-byte field. */
  lemma ReadRecordIff(i: Info)
    requires Packable(i) && |i.md5| == 16
    ensures ReadRecord(Record(i)) == i <==> |i.name| <= 64 && 0 !in i.name
  {
    RecordFields(PutLE(i.address, 4), PutLE(i.flags, 4), Fixed(i.name, 64), Fixed(i.md5, 16));
    WordRoundTrip(i.address, 4);
    WordRoundTrip(i.flags, 4);
    TextOfFixedIff(i.name, 64);
    assert Fixed(i.md5, 16) == i.md5;
  }

  /** Record `k` of the index file. */
  lemma {:induction false} RecordAt(index: seq<Info>, k: nat)
    requires k < |index|
    ensures Records(index)[88 * k..88 * k + 88] == Record(index[k])
  {
    var n := |index| - 1;
    if k < n {
      RecordAt(index[..n], k);
      assert Records(index)[..88 * n] == Records(index[..n]);
    }
  }

  function Entries(items: seq<Item>): (es: seq<Bytes>)
    ensures |es| == |items|
  {
    if items == [] then [] else [Entry(items[0].name, items[0].data, false)] + Entries(items[1..])
  }

  lemma {:induction false} EntriesAppend(items: seq<Item>, x: Item)
    ensures Entries(items + [x]) == Entries(items) + [Entry(x.name, x.data, false)]
  {
    if items == [] {
      assert items + [x] == [x] && [x][1..] == items;
      assert Entries([x]) == [Entry(x.name, x.data, false)] + Entries(items);
    } else {
      assert (items + [x])[1..] == items[1..] + [x];
      EntriesAppend(items[1..], x);
    }
  }

  /** All entries with the trailer behind them are the archive. */
  lemma {:induction false} EntriesAreArchive(items: seq<Item>, trailer: Bytes)
    requires trailer == Entry(TRAILER, [], true)
    ensures Concat(Entries(items) + [trailer]) == Archive(items)
  {
    if items == [] {
      ConcatCons(trailer, []);
      assert Entries(items) + [trailer] == [trailer] + [];
    } else {
      var e, es := Entry(items[0].name, items[0].data, false), Entries(items[1..]);
      EntriesAreArchive(items[1..], trailer);
      ConcatCons(e, es + [trailer]);
      assert Entries(items) + [trailer] == [e] + (es + [trailer]);
    }
  }

  /** One read of at most `size` bytes: the next part. */
  method Front(rest: Bytes, size: nat, ghost parts: seq<Bytes>, ghost i: nat) returns (chunk: Bytes)
    requires size > 0 && rest != [] && i <= |parts| && parts[i..] == Parts(rest, size)
    ensures i < |parts| && chunk == parts[i] && 0 < |chunk| <= |rest| && chunk == rest[..|chunk|]
    ensures parts[i + 1..] == Parts(rest[|chunk|..], size)
  {
    chunk := if |rest| <= size then rest else rest[..size];
    assert parts[i] == parts[i..][0] && parts[i..][1..] == parts[i + 1..];
    assert |rest| <= size ==> rest[|chunk|..] == [] && [chunk][1..] == Parts(rest[|chunk|..], size);
    assert |rest| > size ==> ([chunk] + Parts(rest[size..], size))[1..] == Parts(rest[size..], size);
  }

  lemma NextPart(base: nat, name: Bytes, parts: seq<Bytes>, i: nat, md5: Digest, chunk: Bytes,
                 items: seq<Item>, infos: seq<Info>)
    returns (moreItems: seq<Item>, moreIndex: seq<Info>)
    requires i < |parts| && chunk == parts[i]
    requires items == ItemsFrom(name, parts, i) && infos == InfosFrom(base, name, parts, i, md5)
    ensures moreItems == ItemsFrom(name, parts, i + 1)
    ensures moreIndex == InfosFrom(base, name, parts, i + 1, md5)
    ensures items == [Item(PartName(name, i), chunk)] + moreItems
    ensures AddressOf(base, parts, i + 1) == AddressOf(base, parts, i) + |chunk|
    ensures infos == [Info(AddressOf(base, parts, i), 0, PartName(name, i), Md5Of(md5, chunk))] + moreIndex
  {
    moreItems := ItemsFrom(name, parts, i + 1);
    moreIndex := InfosFrom(base, name, parts, i + 1, md5);
  }

  // ------------------------------------------------------------------ the finished file

  const CPIO_BLOCK: nat := 10240

  type Crc32 = Bytes -> nat

  function DfuCrc(crc32: Crc32, b: Bytes): (r: nat)
    ensures r < U32
  {
    0xFFFF_FFFF - crc32(b) % U32
  }

  /** Twelve bytes behind the archive: device, product, vendor and format numbers, "UFD", length. */
  function Suffix(pid: nat): (s: Bytes)
    ensures |s| == 12
  {
    PutLE(0xFFFF, 2) + PutLE(pid, 2) + PutLE(12346, 2) + PutLE(0x100, 2) + [0x55, 0x46, 0x44] + [16]
  }

  function IndexFile(index: seq<Info>): Item {
    Item(INDEX_NAME, Records(index))
  }

  /** Everything before the checksum. */
  function Body(archive: Bytes, pid: nat): Bytes {
    PadBytes(archive, CPIO_BLOCK) + Suffix(pid)
  }

  lemma BlockMultiple(n: nat)
    ensures RoundUp(n, CPIO_BLOCK) % CPIO_BLOCK == 0
  {
    Multiple((n + CPIO_BLOCK - 1) / CPIO_BLOCK, CPIO_BLOCK);
  }

  ghost predicate Named(items: seq<Item>) {
    forall i :: 0 <= i < |items| ==> items[i].name != TRAILER
  }

  /** The file from its archive. */
  function Sealed(archive: Bytes, pid: nat, crc32: Crc32): Bytes {
    var body := Body(archive, pid);
    body + PutLE(DfuCrc(crc32, body), 4)
  }

  lemma SuffixFields(pid: nat, sum: Bytes)
    requires |sum| == 4
    ensures var s := Suffix(pid) + sum;
            && GetLE(s[0..2]) == 0xFFFF && (pid < 0x1_0000 ==> GetLE(s[2..4]) == pid)
            && GetLE(s[4..6]) == 12346 && GetLE(s[6..8]) == 0x100 && s[8..11] == ['U' as int, 'F' as int, 'D' as int]
            && s[11] == |s|
  {
    var s := Suffix(pid) + sum;
    assert s[0..2] == PutLE(0xFFFF, 2) && s[2..4] == PutLE(pid, 2);
    assert s[4..6] == PutLE(12346, 2) && s[6..8] == PutLE(0x100, 2);
    HalfRoundTrip(0xFFFF, 2);
    HalfRoundTrip(12346, 2);
    HalfRoundTrip(0x100, 2);
    if pid < 0x1_0000 { HalfRoundTrip(pid, 2); }
  }

  /** The finished file is the archive with zeros up to whole blocks, the suffix, whose length byte
      counts the checksum too, and the inverted CRC of all that.  It ends in its checksum, and is 16 bytes longer than a whole number of blocks. */
  lemma SealedShape(archive: Bytes, pid: nat, crc32: Crc32, image: Bytes)
    requires image == Sealed(archive, pid, crc32)
    ensures |image| >= |archive| && image[..|archive|] == archive
    ensures |image| % CPIO_BLOCK == 16
    ensures forall i :: |archive| <= i < |image| - 16 ==> image[i] == 0
    ensures var s := image[|image| - 16..];
            && GetLE(s[0..2]) == 0xFFFF && (pid < 0x1_0000 ==> GetLE(s[2..4]) == pid)
            && GetLE(s[4..6]) == 12346 && GetLE(s[6..8]) == 0x100 && s[8..11] == ['U' as int, 'F' as int, 'D' as int]
            && s[11] == |s|
    ensures GetLE(image[|image| - 4..]) + crc32(image[..|image| - 4]) % U32 == U32 - 1
  {
    var body := Body(archive, pid);
    var sum := PutLE(DfuCrc(crc32, body), 4);
    WordRoundTrip(DfuCrc(crc32, body), 4);
    SuffixFields(pid, sum);
    assert image[|image| - 16..] == Suffix(pid) + sum;
    assert image[..|image| - 4] == body && image[|image| - 4..] == sum;
    BlockMultiple(|archive|);
    ModShift(16, RoundUp(|archive|, CPIO_BLOCK) / CPIO_BLOCK, CPIO_BLOCK);
  }

  /** Walking a file that starts with the archive finds the index file first and then all items,
      exactly when no item bears the name of the trailer. */
  lemma IndexComesFirstIff(items: seq<Item>, first: Item, image: Bytes, archive: Bytes)
    requires Storable([first] + items) && first.name != TRAILER && archive == Archive([first] + items)
    requires |image| >= |archive| && image[..|archive|] == archive
    ensures Walk(image).Some?
    ensures Walk(image).value.0 == [first] + items <==> Named(items)
  {
    var all := [first] + items;
    assert image == archive + image[|archive|..];
    WalkFinds(all, image[|archive|..]);
    UpToTrailerIff(all);
    assert forall i :: 0 <= i < |items| ==> all[i + 1] == items[i];
  }

  ghost predicate AllPackable(index: seq<Info>) {
    forall i :: 0 <= i < |index| ==> Packable(index[i])
  }

  /** Packs the whole index, or stops at a record that does not fit. */
  method PackIndex(index: seq<Info>) returns (packed: Option<Bytes>)
    ensures packed == if AllPackable(index) then Some(Records(index)) else None
  {
    var b: Bytes := [];
    for k := 0 to |index|
      invariant b == Records(index[..k]) && AllPackable(index[..k])
    {
      if index[k].address >= U32 || index[k].flags >= U32 {
        assert !Packable(index[k]);
        return None;
      }
      b := b + Record(index[k]);
      assert index[..k + 1][..k] == index[..k];
    }
    assert index[..|index|] == index;
    packed := Some(b);
  }

  // ------------------------------------------------------------------ the contents of an archive

  datatype File = File(address: nat, name: Bytes, content: Bytes)

  function FileItems(files: seq<File>, size: nat): seq<Item>
    requires size > 0
  {
    if files == [] then []
    else
      var f := files[|files| - 1];
      FileItems(files[..|files| - 1], size) + ItemsFrom(f.name, Parts(f.content, size), 0)
  }

  function FileInfos(files: seq<File>, size: nat, md5: Digest): seq<Info>
    requires size > 0
  {
    if files == [] then []
    else
      var f := files[|files| - 1];
      FileInfos(files[..|files| - 1], size, md5) + InfosFrom(f.address, f.name, Parts(f.content, size), 0, md5)
  }

  /** "flash_params.dat" */
  const PARAMS_NAME: Bytes := [0x66, 0x6C, 0x61, 0x73, 0x68, 0x5F, 0x70, 0x61, 0x72, 0x61, 0x6D, 0x73, 0x2E, 0x64, 0x61, 0x74]

  /** Parameter file, no erase, digest ignored. */
  const PARAMS_FLAGS: nat := 4 + 8 + 16

  function Words(ns: seq<nat>): (s: Bytes)
    ensures |s| == 4 * |ns|
  {
    if ns == [] then [] else Words(ns[..|ns| - 1]) + PutLE(ns[|ns| - 1], 4)
  }

  lemma {:induction false} WordsAt(ns: seq<nat>, k: nat, w: nat)
    requires k < |ns| && ns[k] < U32 && w == 4
    ensures GetLE(Words(ns)[4 * k..4 * k + 4]) == ns[k]
  {
    var n := |ns| - 1;
    var front := Words(ns[..n]);
    if k < n {
      WordsAt(ns[..n], k, w);
      assert Words(ns)[4 * k..4 * k + 4] == front[4 * k..4 * k + 4];
    } else {
      WordRoundTrip(ns[k], w);
      assert Words(ns)[4 * k..4 * k + 4] == PutLE(ns[k], w);
    }
  }

  /** The eight words of the flash chip record. */
  function FlashParams(chipSize: nat): (s: Bytes)
    ensures |s| == 32
  {
    Words([0, 0, 0, chipSize, 0x1_0000, 0x1000, 0x100, 0xFFFF])
  }

  /** The record says, in words of four bytes: no type, the size of the chip, blocks of 64 kB, sectors
      of 4 kB, pages of 256 bytes, and a status mask of 16 bits. */
  lemma FlashParamsRead(chipSize: nat, k: nat, w: nat)
    requires chipSize < U32 && k < 8 && w == 4
    ensures GetLE(FlashParams(chipSize)[4 * k..4 * k + 4])
            == if k < 3 then 0 else if k == 3 then chipSize else if k == 4 then 64 * 1024
               else if k == 5 then 4 * 1024 else if k == 6 then 256 else 0xFFFF
  {
    WordsAt([0, 0, 0, chipSize, 0x1_0000, 0x1000, 0x100, 0xFFFF], k, w);
  }

  predicate Spells(b: Bytes, t: string) {
    |b| == |t| && forall i :: 0 <= i < |b| ==> b[i] == t[i] as int
  }

  /** The names the source uses, and the flags of the parameter record, bits 2 to 4. */
  lemma NamesAndFlags()
    ensures Spells(MAGIC, "070701") && Spells(TRAILER, "TRAILER!!!")
    ensures Spells(INDEX_NAME, "dfuinfo0.dat") && Spells(PARAMS_NAME, "flash_params.dat")
    ensures PARAMS_FLAGS / 4 == 7 && PARAMS_FLAGS % 4 == 0
  {}

  function Datas(items: seq<Item>): seq<Bytes> {
    if items == [] then [] else [items[0].data] + Datas(items[1..])
  }

  lemma {:induction false} DatasOf(name: Bytes, parts: seq<Bytes>, i: nat)
    requires i <= |parts|
    ensures Datas(ItemsFrom(name, parts, i)) == parts[i..]
    decreases |parts| - i
  {
    if i < |parts| {
      DatasOf(name, parts, i + 1);
      var x, more := Item(PartName(name, i), parts[i]), ItemsFrom(name, parts, i + 1);
      assert ([x] + more)[1..] == more;
      assert parts[i..] == [parts[i]] + parts[i + 1..];
    }
  }

  /** The entries made of one file hold the file. */
  lemma FileRecovered(name: Bytes, content: Bytes, size: nat)
    requires size > 0
    ensures Concat(Datas(ItemsFrom(name, Parts(content, size), 0))) == content
  {
    DatasOf(name, Parts(content, size), 0);
    PartsJoin(content, size);
    assert Parts(content, size)[0..] == Parts(content, size);
  }

  lemma NextFile(files: seq<File>, k: nat, size: nat, md5: Digest, items: seq<Item>, index: seq<Info>)
    requires k < |files| && size > 0
    ensures items + FileItems(files[..k + 1], size)
            == items + FileItems(files[..k], size) + ItemsFrom(files[k].name, Parts(files[k].content, size), 0)
    ensures index + FileInfos(files[..k + 1], size, md5) == index + FileInfos(files[..k], size, md5)
            + InfosFrom(files[k].address, files[k].name, Parts(files[k].content, size), 0, md5)
  {
    var f := files[k];
    assert files[..k + 1][..k] == files[..k] && files[..k + 1][k] == f;
    Assoc(items, FileItems(files[..k], size), ItemsFrom(f.name, Parts(f.content, size), 0));
    Assoc(index, FileInfos(files[..k], size, md5), InfosFrom(f.address, f.name, Parts(f.content, size), 0, md5));
  }

  class DfuWriter {
    const partSize: nat
    const md5: Digest
    var entries: seq<Bytes>
    var index: seq<Info>

    /** The items behind the entries, in order. */
    ghost var items: seq<Item>

    ghost predicate Valid()
      reads this
    {
      partSize > 0 && entries == Entries(items) && |index| == |items|
    }

    constructor (partSize: nat, md5: Digest)
      requires partSize > 0
      ensures Valid() && entries == [] && index == [] && items == []
      ensures this.partSize == partSize && this.md5 == md5
    {
      this.partSize := partSize;
      this.md5 := md5;
      entries, index, items := [], [], [];
    }

    method AddFlashEntry(name: Bytes, address: nat, data: Bytes, flags: nat)
      requires Valid()
      modifies this
      ensures Valid()
      ensures items == old(items) + [Item(name, data)]
      ensures index == old(index) + [Info(address, flags, name, md5(data))]
    {
      index := index + [Info(address, flags, name, Md5Of(md5, data))];
      EntriesAppend(items, Item(name, data));
      entries := entries + [Entry(name, data, false)];
      items := items + [Item(name, data)];
    }

    /** Adds a file in parts, each at its own address. */
    method AddFile(flashAddr: nat, name: Bytes, content: Bytes)
      requires Valid()
      modifies this
      ensures Valid()
      ensures items == old(items) + ItemsFrom(name, Parts(content, partSize), 0)
      ensures index == old(index) + InfosFrom(flashAddr, name, Parts(content, partSize), 0, md5)
    {
      ghost var parts := Parts(content, partSize);
      var rest := content;
      var i: nat, address: nat := 0, flashAddr;
      ghost var moreItems, moreIndex := ItemsFrom(name, parts, i), InfosFrom(flashAddr, name, parts, i, md5);
      while rest != []
        invariant Valid() && i <= |parts| && parts[i..] == Parts(rest, partSize)
        invariant moreItems == ItemsFrom(name, parts, i) && moreIndex == InfosFrom(flashAddr, name, parts, i, md5)
        invariant address == AddressOf(flashAddr, parts, i)
        invariant items + moreItems == old(items) + ItemsFrom(name, parts, 0)
        invariant index + moreIndex == old(index) + InfosFrom(flashAddr, name, parts, 0, md5)
        decreases |rest|
      {
        var chunk := Front(rest, partSize, parts, i);
        moreItems, moreIndex := NextPart(flashAddr, name, parts, i, md5, chunk, moreItems, moreIndex);
        AddPart(PartName(name, i), address, chunk, moreItems, moreIndex);
        address := address + |chunk|;
        rest := rest[|chunk|..];
        i := i + 1;
      }
      assert i == |parts|;
    }

    /** One round of that loop; what the later rounds add is a parameter of the proof. */
    method AddPart(name: Bytes, address: nat, chunk: Bytes, ghost moreItems: seq<Item>, ghost moreIndex: seq<Info>)
      requires Valid()
      modifies this
      ensures Valid()
      ensures items + moreItems == old(items) + ([Item(name, chunk)] + moreItems)
      ensures index + moreIndex == old(index) + ([Info(address, 0, name, Md5Of(md5, chunk))] + moreIndex)
    {
      Assoc(items, [Item(name, chunk)], moreItems);
      Assoc(index, [Info(address, 0, name, Md5Of(md5, chunk))], moreIndex);
      AddFlashEntry(name, address, chunk, 0);
    }

    method AddFlashParams(chipSize: nat)
      requires Valid() && chipSize < U32
      modifies this
      ensures Valid()
      ensures items == old(items) + [Item(PARAMS_NAME, FlashParams(chipSize))]
      ensures index == old(index) + [Info(0, PARAMS_FLAGS, PARAMS_NAME, Md5Of(md5, FlashParams(chipSize)))]
    {
      AddFlashEntry(PARAMS_NAME, 0, FlashParams(chipSize), PARAMS_FLAGS);
    }

    method AddFiles(files: seq<File>)
      requires Valid()
      modifies this
      ensures Valid()
      ensures items == old(items) + FileItems(files, partSize)
      ensures index == old(index) + FileInfos(files, partSize, md5)
    {
      for k := 0 to |files|
        invariant Valid()
        invariant items == old(items) + FileItems(files[..k], partSize)
        invariant index == old(index) + FileInfos(files[..k], partSize, md5)
      {
        var f := files[k];
        NextFile(files, k, partSize, md5, old(items), old(index));
        AddFile(f.address, f.name, f.content);
      }
      assert files[..|files|] == files;
    }

    /** Puts the index in front and the trailer behind, and seals the file; fails without output
        when the index or the product number does not fit its fields. */
    method Finish(pid: nat, crc32: Crc32) returns (out: Option<Bytes>)
      requires Valid()
      modifies this`entries
      ensures out.Some? <==> AllPackable(index) && pid < 0x1_0000
      ensures out.Some? ==> out.value == Sealed(Archive([IndexFile(index)] + items), pid, crc32)
    {
      var packed := PackIndex(index);
      if packed == None { return None; }
      var first, last := Entry(INDEX_NAME, packed.value, false), Entry(TRAILER, [], true);
      AllEntries(items, IndexFile(index), first, last);
      entries := [first] + entries;
      entries := entries + [last];
      var archive := Concat(entries);
      if pid >= 0x1_0000 { return None; }
      out := Some(Sealed(archive, pid, crc32));
    }
  }

  lemma AllEntries(items: seq<Item>, index: Item, first: Bytes, last: Bytes)
    requires first == Entry(index.name, index.data, false) && last == Entry(TRAILER, [], true)
    ensures Concat([first] + Entries(items) + [last]) == Archive([index] + items)
  {
    assert ([index] + items)[1..] == items;
    EntriesAreArchive([index] + items, last);
  }

  lemma SealedWalks(items: seq<Item>, first: Item, pid: nat, crc32: Crc32)
    requires first.name != TRAILER
    ensures var w := Walk(Sealed(Archive([first] + items), pid, crc32));
            Storable([first] + items) ==> w.Some? && (w.value.0 == [first] + items <==> Named(items))
  {
    var archive := Archive([first] + items);
    var image := Sealed(archive, pid, crc32);
    SealedShape(archive, pid, crc32, image);
    if Storable([first] + items) {
      IndexComesFirstIff(items, first, image, archive);
    }
  }

  /** What the archive of a list of flash files holds behind its index file. */
  function ArchiveItems(files: seq<File>, chipSize: nat, partSize: nat): seq<Item>
    requires partSize > 0
  {
    [Item(PARAMS_NAME, FlashParams(chipSize))] + FileItems(files, partSize)
  }

  function ArchiveIndex(files: seq<File>, chipSize: nat, partSize: nat, md5: Digest): seq<Info>
    requires partSize > 0
  {
    [Info(0, PARAMS_FLAGS, PARAMS_NAME, Md5Of(md5, FlashParams(chipSize)))] + FileInfos(files, partSize, md5)
  }

  /** The whole file for a list of flash files.  When every entry name and size can be stored, walking
      it finds the index first, then the flash parameters and the parts of the files in index order. */
  method WriteArchive(files: seq<File>, chipSize: nat, partSize: nat, pid: nat, md5: Digest, crc32: Crc32)
    returns (out: Option<Bytes>)
    requires partSize > 0 && chipSize < U32
    ensures out.Some? <==> AllPackable(ArchiveIndex(files, chipSize, partSize, md5)) && pid < 0x1_0000
    ensures var items, first := ArchiveItems(files, chipSize, partSize), IndexFile(ArchiveIndex(files, chipSize, partSize, md5));
            out.Some? ==>
              && out.value == Sealed(Archive([first] + items), pid, crc32)
              && (Storable([first] + items) ==>
                    Walk(out.value).Some? && (Walk(out.value).value.0 == [first] + items <==> Named(items)))
  {
    var w := new DfuWriter(partSize, md5);
    w.AddFlashParams(chipSize);
    w.AddFiles(files);
    ghost var items, index := ArchiveItems(files, chipSize, partSize), ArchiveIndex(files, chipSize, partSize, md5);
    Prepend(Item(PARAMS_NAME, FlashParams(chipSize)), FileItems(files, partSize));
    Prepend(Info(0, PARAMS_FLAGS, PARAMS_NAME, Md5Of(md5, FlashParams(chipSize))), FileInfos(files, partSize, md5));
    assert w.items == items && w.index == index;
    out := w.Finish(pid, crc32);
    SealedWalks(items, IndexFile(index), pid, crc32);
  }

  lemma Prepend<T>(x: T, rest: seq<T>)
    ensures [] + [x] + rest == [x] + rest
  {}
}
