/** The UUID codec of src/uuid.c: the fields of section 4.1.2 of RFC 4122 as sixteen bytes, in the
    byte order that the variant of section 4.1.1 selects, the order of UUIDs, and their text form as
    in section 3. */
module Uuid {
  import opened Bytes
  import opened Options

  type Uint16 = x: int | 0 <= x < 0x1_0000
  type Uint32 = x: int | 0 <= x < 0x1_0000_0000

  datatype Fields = Fields(data1: Uint32, data2: Uint16, data3: Uint16, data4: seq<Byte>)

  predicate Valid(u: Fields) { |u.data4| == 8 }

  // ----- the codec -----

  /** Variant 2 is little endian. */
  predicate IsLittleEndian(v: Byte) { (v as bv8) & 0xe0 == 0xc0 }

  /** The mask picks out the three bits 110 of section 4.1.1. */
  lemma VariantRange(v: Byte)
    ensures IsLittleEndian(v) <==> 0xc0 <= v < 0xe0
  {
    var w := v as bv8;
    assert w & 0xe0 == 0xc0 <==> 0xc0 <= w && w < 0xe0;
  }

  /** The bytes of a number from the most significant down. */
  function Big32(v: Uint32): (r: seq<Byte>)
    ensures |r| == 4
  {
    [v / 0x100 / 0x100 / 0x100, v / 0x100 / 0x100 % 0x100, v / 0x100 % 0x100, v % 0x100]
  }

  function Big16(v: Uint16): (r: seq<Byte>)
    ensures |r| == 2
  {
    [v / 0x100, v % 0x100]
  }

  /** Two digits in base 256. */
  function Pair(hi: int, lo: int): int { hi * 0x100 + lo }

  function Number32(b: seq<Byte>): Uint32
    requires |b| == 4
  {
    Pair(Pair(Pair(b[0], b[1]), b[2]), b[3])
  }

  function Number16(b: seq<Byte>): Uint16
    requires |b| == 2
  {
    Pair(b[0], b[1])
  }

  function Put32(v: Uint32, little: bool): (r: seq<Byte>)
    ensures |r| == 4
  {
    var b := Big32(v);
    if little then [b[3], b[2], b[1], b[0]] else b
  }

  function Put16(v: Uint16, little: bool): (r: seq<Byte>)
    ensures |r| == 2
  {
    var b := Big16(v);
    if little then [b[1], b[0]] else b
  }

  function Get32(b: seq<Byte>, little: bool): Uint32
    requires |b| == 4
  {
    Number32(if little then [b[3], b[2], b[1], b[0]] else b)
  }

  function Get16(b: seq<Byte>, little: bool): Uint16
    requires |b| == 2
  {
    Number16(if little then [b[1], b[0]] else b)
  }

  lemma Digits(hi: int, lo: Byte)
    requires hi >= 0
    ensures Pair(hi, lo) / 0x100 == hi && Pair(hi, lo) % 0x100 == lo
  {
  }

  lemma RoundTrip32(v: Uint32, b: seq<Byte>, little: bool)
    requires |b| == 4
    ensures Get32(Put32(v, little), little) == v && Put32(Get32(b, little), little) == b
  {
    var c := if little then [b[3], b[2], b[1], b[0]] else b;
    Digits(Pair(Pair(c[0], c[1]), c[2]), c[3]);
    Digits(Pair(c[0], c[1]), c[2]);
    Digits(c[0], c[1]);
    hide Pair;
    assert Number32(Big32(v)) == v by { BigNumber(v); }
    assert Big32(Number32(c)) == c;
  }

  lemma BigNumber(v: Uint32)
    ensures Number32(Big32(v)) == v
  {
  }

  lemma RoundTrip16(v: Uint16, b: seq<Byte>, little: bool)
    requires |b| == 2
    ensures Get16(Put16(v, little), little) == v && Put16(Get16(b, little), little) == b
  {
  }

  /** The bytes of a UUID. */
  function Encoded(u: Fields): (b: seq<Byte>)
    requires Valid(u)
    ensures |b| == 16
  {
    var little := IsLittleEndian(u.data4[0]);
    Put32(u.data1, little) + Put16(u.data2, little) + Put16(u.data3, little) + u.data4
  }

  function Decoded(b: seq<Byte>): (u: Fields)
    requires |b| == 16
    ensures Valid(u)
  {
    var little := IsLittleEndian(b[8]);
    Fields(Get32(b[..4], little), Get16(b[4..6], little), Get16(b[6..8], little), b[8..])
  }

  /** The codec is a bijection: the byte that selects the order is kept, whichever order it selects. */
  lemma DecodeEncode(u: Fields)
    requires Valid(u)
    ensures Decoded(Encoded(u)) == u
  {
    var b, little := Encoded(u), IsLittleEndian(u.data4[0]);
    hide Put32, Put16, Get32, Get16, IsLittleEndian;
    assert b[..4] == Put32(u.data1, little) && b[4..6] == Put16(u.data2, little);
    assert b[6..8] == Put16(u.data3, little) && b[8..] == u.data4;
    RoundTrip32(u.data1, b[..4], little);
    RoundTrip16(u.data2, b[4..6], little);
    RoundTrip16(u.data3, b[6..8], little);
  }

  /** The parts of sixteen bytes, read and written again in either order. */
  lemma PartsAgain(b: seq<Byte>, little: bool)
    requires |b| == 16
    ensures Put32(Get32(b[..4], little), little) + Put16(Get16(b[4..6], little), little)
      + Put16(Get16(b[6..8], little), little) + b[8..] == b
  {
    hide Put32, Put16, Get32, Get16;
    RoundTrip32(0, b[..4], little);
    RoundTrip16(0, b[4..6], little);
    RoundTrip16(0, b[6..8], little);
  }

  lemma EncodeDecode(b: seq<Byte>)
    requires |b| == 16
    ensures Encoded(Decoded(b)) == b
  {
    hide Put32, Put16, Get32, Get16, IsLittleEndian;
    PartsAgain(b, IsLittleEndian(b[8]));
  }

  /** uuid_to_bytes writes into the caller's array. */
  method ToBytes(u: Fields, dest: array<Byte>)
    requires Valid(u) && dest.Length == 16
    modifies dest
    ensures dest[..] == Encoded(u)
  {
    var little := IsLittleEndian(u.data4[0]);
    var head := Put32(u.data1, little) + Put16(u.data2, little) + Put16(u.data3, little);
    for i := 0 to 8
      invariant dest[..i] == head[..i]
    {
      dest[i] := head[i];
    }
    for i := 0 to 8
      invariant dest[..8 + i] == head + u.data4[..i]
    {
      dest[8 + i] := u.data4[i];
    }
  }

  // ----- the order -----

  /** memcmp, up to the size of a nonzero answer. */
  function Memcmp(a: seq<Byte>, b: seq<Byte>): (r: int)
    requires |a| == |b|
    ensures -1 <= r <= 1
  {
    if a == [] then 0 else if a[0] != b[0] then if a[0] < b[0] then -1 else 1 else Memcmp(a[1..], b[1..])
  }

  /** wpdk_uuid_compare */
  function Compare(a: seq<Byte>, b: seq<Byte>): (r: int)
    requires |a| == 16 && |b| == 16
    ensures -1 <= r <= 1
  {
    CompareFields(Decoded(a), Decoded(b))
  }

  function CompareFields(u: Fields, w: Fields): (r: int)
    requires Valid(u) && Valid(w)
    ensures -1 <= r <= 1
  {
    if u.data1 != w.data1 then if u.data1 < w.data1 then -1 else 1
    else if u.data2 != w.data2 then if u.data2 < w.data2 then -1 else 1
    else if u.data3 != w.data3 then if u.data3 < w.data3 then -1 else 1
    else Memcmp(u.data4, w.data4)
  }

  lemma {:induction false} MemcmpOrder(a: seq<Byte>, b: seq<Byte>, c: seq<Byte>)
    requires |a| == |b| == |c|
    ensures Memcmp(a, b) == 0 <==> a == b
    ensures Memcmp(b, a) == -Memcmp(a, b)
    ensures Memcmp(a, b) <= 0 && Memcmp(b, c) <= 0 ==> Memcmp(a, c) <= 0
  {
    if a == [] {
    } else {
      MemcmpOrder(a[1..], b[1..], c[1..]);
      assert a == [a[0]] + a[1..] && b == [b[0]] + b[1..];
    }
  }

  /** A total order on UUIDs, in which only equal bytes are equal. */
  lemma CompareOrder(a: seq<Byte>, b: seq<Byte>, c: seq<Byte>)
    requires |a| == |b| == |c| == 16
    ensures Compare(a, b) == 0 <==> a == b
    ensures Compare(b, a) == -Compare(a, b)
    ensures Compare(a, b) <= 0 && Compare(b, c) <= 0 ==> Compare(a, c) <= 0
  {
    var u, w, x := Decoded(a), Decoded(b), Decoded(c);
    EncodeDecode(a);
    EncodeDecode(b);
    hide Decoded, Encoded, Memcmp;
    MemcmpOrder(u.data4, w.data4, x.data4);
  }

  lemma {:induction false} MemcmpSplit(a: seq<Byte>, b: seq<Byte>, n: nat)
    requires |a| == |b| && n <= |a|
    ensures Memcmp(a, b) == if Memcmp(a[..n], b[..n]) != 0 then Memcmp(a[..n], b[..n]) else Memcmp(a[n..], b[n..])
  {
    if n > 0 {
      MemcmpSplit(a[1..], b[1..], n - 1);
      assert a[..n][1..] == a[1..][..n - 1] && b[..n][1..] == b[1..][..n - 1];
      assert a[1..][n - 1..] == a[n..] && b[1..][n - 1..] == b[n..];
    } else {
      assert a[..0] == [] == b[..0] && a[0..] == a && b[0..] == b;
    }
  }

  function Sign(x: int): int { if x < 0 then -1 else if x > 0 then 1 else 0 }

  /** Comparing the most significant bytes first is comparing the numbers. */
  lemma Lexical16(a: seq<Byte>, b: seq<Byte>)
    requires |a| == 2 && |b| == 2
    ensures Memcmp(a, b) == Sign(Get16(a, false) - Get16(b, false))
  {
    assert a == [a[0], a[1]] && b == [b[0], b[1]];
    assert a[1..][1..] == [] && a[1..][0] == a[1] && b[1..][0] == b[1];
    assert Memcmp(a[1..], b[1..]) == Sign(a[1] as int - b[1]);
  }

  lemma Lexical32(a: seq<Byte>, b: seq<Byte>)
    requires |a| == 4 && |b| == 4
    ensures Memcmp(a, b) == Sign(Get32(a, false) - Get32(b, false))
  {
    MemcmpSplit(a, b, 2);
    Lexical16(a[..2], b[..2]);
    Lexical16(a[2..], b[2..]);
    assert Get32(a, false) == Get16(a[..2], false) * 0x1_0000 + Get16(a[2..], false);
    assert Get32(b, false) == Get16(b[..2], false) * 0x1_0000 + Get16(b[2..], false);
  }

  /** On UUIDs that are not variant 2 the order is that of the bytes. */
  lemma CompareIsMemcmp(a: seq<Byte>, b: seq<Byte>)
    requires |a| == 16 && |b| == 16 && !IsLittleEndian(a[8]) && !IsLittleEndian(b[8])
    ensures Compare(a, b) == Memcmp(a, b)
  {
    hide Memcmp, Get32, Get16, IsLittleEndian;
    MemcmpSplit(a, b, 4);
    MemcmpSplit(a[4..], b[4..], 2);
    MemcmpSplit(a[6..], b[6..], 2);
    assert a[4..][..2] == a[4..6] && a[4..][2..] == a[6..] && a[6..][..2] == a[6..8] && a[6..][2..] == a[8..];
    assert b[4..][..2] == b[4..6] && b[4..][2..] == b[6..] && b[6..][..2] == b[6..8] && b[6..][2..] == b[8..];
    Lexical32(a[..4], b[..4]);
    Lexical16(a[4..6], b[4..6]);
    Lexical16(a[6..8], b[6..8]);
  }

  /** On variant 2 it is not, whatever the other fields are: the first bytes are the least
      significant. */
  lemma CompareNotMemcmp(rest: seq<Byte>) returns (a: seq<Byte>, b: seq<Byte>)
    requires |rest| == 12 && IsLittleEndian(rest[4])
    ensures |a| == 16 && |b| == 16 && a[4..] == b[4..] == rest && Compare(a, b) == 1 && Memcmp(a, b) == -1
  {
    a, b := [0, 1, 0, 0] + rest, [1, 0, 0, 0] + rest;
    assert Memcmp(a, b) == -1;
    hide IsLittleEndian, Memcmp;
    assert a[..4] == [0, 1, 0, 0] && b[..4] == [1, 0, 0, 0] && a[8] == b[8] == rest[4];
    assert Get32([0, 1, 0, 0], true) == 0x100 && Get32([1, 0, 0, 0], true) == 1;
    hide Get32, Get16;
    assert Decoded(a).data1 == 0x100 && Decoded(b).data1 == 1;
  }

  // ----- the text form -----

  const UPPER := "0123456789ABCDEF"
  const LOWER := "0123456789abcdef"

  function Digit(d: int, upper: bool): char
    requires 0 <= d < 16
  {
    if upper then UPPER[d] else LOWER[d]
  }

  function DigitValue(c: char): Option<int> {
    if '0' <= c <= '9' then Some(c as int - '0' as int)
    else if 'a' <= c <= 'f' then Some(c as int - 'a' as int + 10)
    else if 'A' <= c <= 'F' then Some(c as int - 'A' as int + 10)
    else None
  }

  lemma DigitRoundTrip(d: int, upper: bool)
    requires 0 <= d < 16
    ensures DigitValue(Digit(d, upper)) == Some(d)
  {
  }

  function Pow16(k: nat): nat { if k == 0 then 1 else 16 * Pow16(k - 1) }

  /** printf's %0kX or %0kx */
  function Hex(v: nat, k: nat, upper: bool): (r: string)
    ensures |r| == k
  {
    if k == 0 then "" else Hex(v / 16, k - 1, upper) + [Digit(v % 16, upper)]
  }

  /** The number that hexadecimal digits stand for. */
  function HexValue(s: string): Option<nat> {
    if s == "" then Some(0)
    else
      var hi, lo := HexValue(s[..|s| - 1]), DigitValue(s[|s| - 1]);
      if hi == None || lo == None then None else Some(16 * hi.value + lo.value)
  }

  lemma {:induction false} HexRoundTrip(v: nat, k: nat, upper: bool)
    requires v < Pow16(k)
    ensures HexValue(Hex(v, k, upper)) == Some(v)
  {
    hide Digit, DigitValue, HexValue, Hex;
    if k == 0 {
      HexNothing(v, upper);
    } else {
      var hi, lo := v / 16, v % 16;
      assert v == 16 * hi + lo && hi < Pow16(k - 1);
      HexRoundTrip(hi, k - 1, upper);
      DigitRoundTrip(lo, upper);
      HexSnoc(hi, lo, k - 1, upper);
      ValueSnoc(Hex(hi, k - 1, upper), Digit(lo, upper));
    }
  }

  lemma HexNothing(v: nat, upper: bool)
    ensures Hex(v, 0, upper) == "" && HexValue("") == Some(0)
  {
  }

  lemma HexSnoc(hi: nat, lo: nat, k: nat, upper: bool)
    requires lo < 16
    ensures Hex(16 * hi + lo, k + 1, upper) == Hex(hi, k, upper) + [Digit(lo, upper)]
  {
    assert (16 * hi + lo) / 16 == hi && (16 * hi + lo) % 16 == lo;
  }

  lemma ValueSnoc(s: string, c: char)
    ensures HexValue(s + [c]) ==
      if HexValue(s).Some? && DigitValue(c).Some? then Some(16 * HexValue(s).value + DigitValue(c).value) else None
  {
    assert (s + [c])[..|s|] == s;
  }

  lemma DigitAgain(c: char)
    requires DigitValue(c).Some?
    ensures 0 <= DigitValue(c).value < 16 && Digit(DigitValue(c).value, false) == LowerCase(c)
  {
  }

  /** Hexadecimal digits printed again come out the same, in the case asked for. */
  lemma {:induction false} HexAgain(s: string)
    requires HexValue(s).Some?
    ensures HexValue(s).value < Pow16(|s|) && Hex(HexValue(s).value, |s|, false) == Lowered(s)
  {
    hide DigitValue, Digit, LowerCase, HexValue, Hex;
    if s == "" {
      HexNothing(0, false);
    } else {
      var n := |s| - 1;
      assert s == s[..n] + [s[n]];
      ValueSnoc(s[..n], s[n]);
      HexAgain(s[..n]);
      DigitAgain(s[n]);
      HexSnoc(HexValue(s[..n]).value, DigitValue(s[n]).value, n, false);
      assert Lowered(s) == Lowered(s[..n]) + [LowerCase(s[n])];
    }
  }

  function LowerCase(c: char): char {
    if 'A' <= c <= 'Z' then ((c as int - 'A' as int) + 'a' as int) as char else c
  }

  function Lowered(s: string): (r: string)
    ensures |r| == |s| && forall i :: 0 <= i < |s| ==> r[i] == LowerCase(s[i])
  {
    seq(|s|, i requires 0 <= i < |s| => LowerCase(s[i]))
  }

  /** Bytes as two digits each. */
  function HexBytes(b: seq<Byte>, upper: bool): (r: string)
    ensures |r| == 2 * |b|
  {
    if b == [] then "" else Hex(b[0], 2, upper) + HexBytes(b[1..], upper)
  }

  function ByteValues(s: string): Option<seq<Byte>>
    requires |s| % 2 == 0
  {
    if s == "" then Some([])
    else
      var first, rest := HexValue(s[..2]), ByteValues(s[2..]);
      if first == None || first.value >= 0x100 || rest == None then None else Some([first.value] + rest.value)
  }

  lemma {:induction false} BytesRoundTrip(b: seq<Byte>, upper: bool)
    ensures ByteValues(HexBytes(b, upper)) == Some(b)
  {
    if b == [] {
    } else {
      var s := HexBytes(b, upper);
      assert s[..2] == Hex(b[0], 2, upper) && s[2..] == HexBytes(b[1..], upper);
      assert Pow16(2) == 0x100;
      HexRoundTrip(b[0], 2, upper);
      BytesRoundTrip(b[1..], upper);
      assert b == [b[0]] + b[1..];
    }
  }

  lemma {:induction false} BytesAgain(s: string)
    requires |s| % 2 == 0 && ByteValues(s).Some?
    ensures 2 * |ByteValues(s).value| == |s| && HexBytes(ByteValues(s).value, false) == Lowered(s)
  {
    if s == "" {
    } else {
      HexAgain(s[..2]);
      BytesAgain(s[2..]);
      assert ByteValues(s).value[1..] == ByteValues(s[2..]).value;
      assert Lowered(s) == Lowered(s[..2]) + Lowered(s[2..]);
    }
  }

  /** The format string of unparse_upper and unparse_lower. */
  function Text(u: Fields, upper: bool): (r: string)
    requires Valid(u)
    ensures |r| == 36
  {
    Hex(u.data1, 8, upper) + "-" + Hex(u.data2, 4, upper) + "-" + Hex(u.data3, 4, upper) + "-"
    + HexBytes(u.data4[..2], upper) + "-" + HexBytes(u.data4[2..], upper)
  }

  /** Five groups with dashes between them. */
  predicate Dashed(s: string) { |s| == 36 && s[8] == '-' && s[13] == '-' && s[18] == '-' && s[23] == '-' }

  /** What UuidFromString reads: the form of section 3, with digits in either case. */
  function FromText(s: string): (r: Option<Fields>)
    ensures r.Some? ==> Valid(r.value)
  {
    if !Dashed(s) then None
    else
      var d1, d2, d3 := HexValue(s[..8]), HexValue(s[9..13]), HexValue(s[14..18]);
      var b, c := ByteValues(s[19..23]), ByteValues(s[24..]);
      if d1 == None || d2 == None || d3 == None || b == None || c == None then None
      else
        HexAgain(s[..8]);
        HexAgain(s[9..13]);
        HexAgain(s[14..18]);
        BytesAgain(s[19..23]);
        BytesAgain(s[24..]);
        Powers();
        Some(Fields(d1.value, d2.value, d3.value, b.value + c.value))
  }

  lemma Powers()
    ensures Pow16(8) == 0x1_0000_0000 && Pow16(4) == 0x1_0000 && Pow16(2) == 0x100
  {
    assert Pow16(6) == 0x100_0000;
  }

  lemma TextParts(u: Fields, upper: bool)
    requires Valid(u)
    ensures var s := Text(u, upper);
      && Dashed(s) && s[..8] == Hex(u.data1, 8, upper) && s[9..13] == Hex(u.data2, 4, upper)
      && s[14..18] == Hex(u.data3, 4, upper)
      && s[19..23] == HexBytes(u.data4[..2], upper) && s[24..] == HexBytes(u.data4[2..], upper)
  {
    hide Hex, HexBytes;
  }

  /** Printing and reading back gives the same UUID, in either case of digits. */
  lemma ReadPrinted(u: Fields, upper: bool)
    requires Valid(u)
    ensures FromText(Text(u, upper)) == Some(u)
  {
    Powers();
    TextParts(u, upper);
    HexRoundTrip(u.data1, 8, upper);
    HexRoundTrip(u.data2, 4, upper);
    HexRoundTrip(u.data3, 4, upper);
    BytesRoundTrip(u.data4[..2], upper);
    BytesRoundTrip(u.data4[2..], upper);
    hide Hex, HexBytes, HexValue, ByteValues, Text, Pow16;
    assert u.data4[..2] + u.data4[2..] == u.data4;
  }

  /** Whatever can be read is printed back in lower case as it was. */
  lemma PrintRead(s: string)
    requires FromText(s).Some?
    ensures Text(FromText(s).value, false) == Lowered(s)
  {
    hide FromText, Hex, HexBytes, HexValue, ByteValues, Pow16, Lowered;
    ReadParts(s);
    HexAgain(s[..8]);
    HexAgain(s[9..13]);
    HexAgain(s[14..18]);
    BytesAgain(s[19..23]);
    BytesAgain(s[24..]);
    LoweredGroups(s);
  }

  /** What is read comes from the five groups. */
  lemma ReadParts(s: string)
    requires FromText(s).Some?
    ensures var u := FromText(s).value;
      && Dashed(s) && HexValue(s[..8]) == Some(u.data1) && HexValue(s[9..13]) == Some(u.data2)
      && HexValue(s[14..18]) == Some(u.data3)
      && ByteValues(s[19..23]) == Some(u.data4[..2]) && ByteValues(s[24..]) == Some(u.data4[2..])
  {
    BytesAgain(s[19..23]);
    BytesAgain(s[24..]);
    hide HexValue, ByteValues;
    var b, c := ByteValues(s[19..23]).value, ByteValues(s[24..]).value;
    assert (b + c)[..2] == b && (b + c)[2..] == c;
  }

  lemma LoweredGroups(s: string)
    requires Dashed(s)
    ensures Lowered(s) ==
      Lowered(s[..8]) + "-" + Lowered(s[9..13]) + "-" + Lowered(s[14..18]) + "-" + Lowered(s[19..23])
      + "-" + Lowered(s[24..])
  {
  }

  /** wpdk_uuid_unparse_upper and wpdk_uuid_unparse_lower */
  function Unparse(b: seq<Byte>, upper: bool): string
    requires |b| == 16
  {
    Text(Decoded(b), upper)
  }

  /** wpdk_uuid_parse */
  function Parse(s: string): Option<seq<Byte>> {
    if FromText(s) == None then None else Some(Encoded(FromText(s).value))
  }

  lemma HexPair(hi: nat, lo: Byte, k: nat, upper: bool)
    ensures Hex(Pair(hi, lo), k + 2, upper) == Hex(hi, k, upper) + Hex(lo, 2, upper)
  {
    var v := Pair(hi, lo);
    assert v / 16 / 16 == hi && v / 16 % 16 == lo / 16 && v % 16 == lo % 16;
    assert Hex(v, k + 2, upper) == Hex(v / 16, k + 1, upper) + [Digit(v % 16, upper)];
    assert Hex(v / 16, k + 1, upper) == Hex(v / 16 / 16, k, upper) + [Digit(v / 16 % 16, upper)];
    assert Hex(lo, 2, upper) == Hex(lo / 16, 1, upper) + [Digit(lo % 16, upper)];
    assert Hex(lo / 16, 1, upper) == [Digit(lo / 16, upper)];
  }

  /** A number printed in hexadecimal is its bytes printed from the most significant down. */
  lemma HexNumber16(b: seq<Byte>, upper: bool)
    requires |b| == 2
    ensures Hex(Get16(b, false), 4, upper) == HexBytes(b, upper)
  {
    HexPair(b[0], b[1], 2, upper);
    assert HexBytes(b[1..], upper) == Hex(b[1], 2, upper) + HexBytes(b[1..][1..], upper);
    assert HexBytes(b[1..][1..], upper) == "";
  }

  lemma HexNumber32(b: seq<Byte>, upper: bool)
    requires |b| == 4
    ensures Hex(Get32(b, false), 8, upper) == HexBytes(b, upper)
  {
    HexPair(Pair(Pair(b[0], b[1]), b[2]), b[3], 6, upper);
    HexPair(Pair(b[0], b[1]), b[2], 4, upper);
    HexPair(b[0], b[1], 2, upper);
    FourBytes(b, upper);
    hide Hex, HexBytes, Pair;
  }

  lemma FourBytes(b: seq<Byte>, upper: bool)
    requires |b| == 4
    ensures HexBytes(b, upper) == Hex(b[0], 2, upper) + Hex(b[1], 2, upper) + Hex(b[2], 2, upper) + Hex(b[3], 2, upper)
  {
    hide Hex;
    assert b[1..][1..] == b[2..] && b[2..][1..] == b[3..] && b[3..][1..] == [];
    assert HexBytes(b[3..], upper) == Hex(b[3], 2, upper);
    assert HexBytes(b[2..], upper) == Hex(b[2], 2, upper) + Hex(b[3], 2, upper);
    assert HexBytes(b[1..], upper) == Hex(b[1], 2, upper) + HexBytes(b[2..], upper);
  }

  /** Unless the UUID is of variant 2, its text is its bytes in order, with a dash before the fifth,
      seventh, ninth and eleventh. */
  lemma TextIsBytes(b: seq<Byte>, upper: bool)
    requires |b| == 16 && !IsLittleEndian(b[8])
    ensures Unparse(b, upper) ==
      HexBytes(b[..4], upper) + "-" + HexBytes(b[4..6], upper) + "-" + HexBytes(b[6..8], upper)
      + "-" + HexBytes(b[8..10], upper) + "-" + HexBytes(b[10..], upper)
  {
    hide Hex, HexBytes, Get32, Get16, IsLittleEndian;
    HexNumber32(b[..4], upper);
    HexNumber16(b[4..6], upper);
    HexNumber16(b[6..8], upper);
    assert b[8..][..2] == b[8..10] && b[8..][2..] == b[10..];
  }

  lemma ParseUnparse(b: seq<Byte>, upper: bool)
    requires |b| == 16
    ensures Parse(Unparse(b, upper)) == Some(b)
  {
    hide FromText, Text, Encoded, Decoded;
    ReadPrinted(Decoded(b), upper);
    EncodeDecode(b);
  }

  /** Two texts are read as the same UUID exactly if they differ in the case of digits only. */
  lemma ParseInjective(s: string, t: string)
    requires Parse(s).Some? && Parse(t).Some?
    ensures Parse(s) == Parse(t) <==> Lowered(s) == Lowered(t)
  {
    var u, w := FromText(s).value, FromText(t).value;
    PrintRead(s);
    PrintRead(t);
    ReadPrinted(u, false);
    ReadPrinted(w, false);
    DecodeEncode(u);
    DecodeEncode(w);
    hide FromText, Text, Encoded, Decoded, Lowered;
  }
}
