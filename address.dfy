/**
 * The address formatter of the advertising-report handler: six bytes
 * rendered most significant first as `XX:XX:XX:XX:XX:XX` with upper-case
 * hexadecimal digits, and the parser that reads such a rendering back.
 */
module Addr {
  import opened Wrappers
  import opened Types

  predicate IsUpperHexDigit(c: char) {
    '0' <= c <= '9' || 'A' <= c <= 'F'
  }

  /** The value of an upper-case hexadecimal digit. */
  function DigitValue(c: char): (r: Option<nat>)
    ensures r.Some? <==> IsUpperHexDigit(c)
    ensures r.Some? ==> r.value < 16
  {
    if '0' <= c <= '9' then Some(c as int - '0' as int)
    else if 'A' <= c <= 'F' then Some(c as int - 'A' as int + 10)
    else None
  }

  /** The upper-case hexadecimal digit of a value below 16. */
  function HexDigit(n: nat): (c: char)
    requires n < 16
    ensures IsUpperHexDigit(c) && DigitValue(c) == Some(n)
  {
    if n < 10 then ('0' as int + n) as char else ('A' as int + n - 10) as char
  }

  /** Two hexadecimal digits read as one byte, high digit first. */
  function ParseHexByte(s: string): Option<byte>
  {
    if |s| != 2 then None
    else match (DigitValue(s[0]), DigitValue(s[1]))
      case (Some(hi), Some(lo)) => Some(hi * 16 + lo)
      case _ => None
  }

  /** One byte as two upper-case hexadecimal digits, zero-padded (`%02X`). */
  function HexByte(x: byte): (s: string)
    ensures |s| == 2 && IsUpperHexDigit(s[0]) && IsUpperHexDigit(s[1])
    ensures ParseHexByte(s) == Some(x)
  {
    [HexDigit(x / 16), HexDigit(x % 16)]
  }

  /** The address `a` rendered `a[5]:a[4]:a[3]:a[2]:a[1]:a[0]`. */
  function FormatAddress(a: Address): (s: string)
    ensures |s| == 17
    ensures forall i :: 0 <= i < |s| ==> (s[i] == ':' <==> i % 3 == 2)
    ensures forall i :: 0 <= i < |s| && i % 3 != 2 ==> IsUpperHexDigit(s[i])
  {
    HexByte(a[5]) + ":" + HexByte(a[4]) + ":" + HexByte(a[3]) + ":" +
    HexByte(a[2]) + ":" + HexByte(a[1]) + ":" + HexByte(a[0])
  }

  /** The `k`-th two-digit group of a colon-separated rendering. */
  function Octet(s: string, k: nat): string
    requires 3 * k + 2 <= |s|
  {
    s[3 * k .. 3 * k + 2]
  }

  /** Reads `XX:XX:...:XX` into its bytes, in the order written. */
  function ParseGroups(s: string): Option<seq<byte>>
    decreases |s|
  {
    if |s| < 2 then None
    else match ParseHexByte(s[..2])
      case None => None
      case Some(x) =>
        if |s| == 2 then Some([x])
        else if s[2] != ':' then None
        else match ParseGroups(s[3..])
          case None => None
          case Some(rest) => Some([x] + rest)
  }

  function Reverse(bs: seq<byte>): (r: seq<byte>)
    ensures |r| == |bs|
    ensures forall i :: 0 <= i < |bs| ==> r[i] == bs[|bs| - 1 - i]
  {
    seq(|bs|, i requires 0 <= i < |bs| => bs[|bs| - 1 - i])
  }

  /** Reads a six-group rendering back into the address it names. */
  function ParseAddress(s: string): Option<Address>
  {
    match ParseGroups(s)
    case Some(bs) => if |bs| == 6 then Some(Reverse(bs)) else None
    case None => None
  }

  lemma ParseGroupsOne(x: byte)
    ensures ParseGroups(HexByte(x)) == Some([x])
  {
  }

  lemma ParseGroupsCons(x: byte, rest: string)
    requires ParseGroups(rest).Some?
    ensures ParseGroups(HexByte(x) + ":" + rest) == Some([x] + ParseGroups(rest).value)
  {
  }

  /** The rendering loses nothing: parsing it gives back the address. */
  lemma ParseFormatAddress(a: Address)
    ensures ParseAddress(FormatAddress(a)) == Some(a)
  {
    var s0 := HexByte(a[0]);
    var s1 := HexByte(a[1]) + ":" + s0;
    var s2 := HexByte(a[2]) + ":" + s1;
    var s3 := HexByte(a[3]) + ":" + s2;
    var s4 := HexByte(a[4]) + ":" + s3;
    var s5 := HexByte(a[5]) + ":" + s4;
    ParseGroupsOne(a[0]);
    ParseGroupsCons(a[1], s0);
    ParseGroupsCons(a[2], s1);
    ParseGroupsCons(a[3], s2);
    ParseGroupsCons(a[4], s3);
    ParseGroupsCons(a[5], s4);
    var bs := [a[5], a[4], a[3], a[2], a[1], a[0]];
    assert ParseGroups(s5).value == bs;
    assert FormatAddress(a) == s5;
    assert Reverse(bs) == a;
  }

  /** Distinct addresses are rendered differently. */
  lemma FormatAddressInjective(a: Address, b: Address)
    ensures FormatAddress(a) == FormatAddress(b) ==> a == b
  {
    ParseFormatAddress(a);
    ParseFormatAddress(b);
  }

  /** Group k of the rendering is byte 5 - k: the bytes come out most significant first. */
  lemma FormatAddressOctets(a: Address)
    ensures forall k :: 0 <= k < 6 ==> Octet(FormatAddress(a), k) == HexByte(a[5 - k])
  {
  }
}
