/**
  BitConverter.ToString(byte[]), the digest text DuplicateSetInfo carries:
  each byte as two upper-case hexadecimal digits, bytes separated by '-',
  and the empty string for no bytes. ParseHex is its inverse.
*/
module HexFormat {
  import opened Wrappers
  import opened Files

  function HexDigit(n: int): char
    requires 0 <= n < 16
  {
    if n < 10 then ('0' as int + n) as char else ('A' as int + n - 10) as char
  }

  /** The value of an upper-case hexadecimal digit. */
  function HexValue(c: char): (r: Option<int>)
    ensures r.Some? ==> 0 <= r.value < 16 && HexDigit(r.value) == c
  {
    if '0' <= c <= '9' then Some(c as int - '0' as int)
    else if 'A' <= c <= 'F' then Some(c as int - 'A' as int + 10)
    else None
  }

  lemma HexValueOfDigit(n: int)
    requires 0 <= n < 16
    ensures HexValue(HexDigit(n)) == Some(n)
  {
  }

  function ByteToHex(b: byte): string
  {
    [HexDigit(b as int / 16), HexDigit(b as int % 16)]
  }

  /** BitConverter.ToString(bytes). */
  function BitConverterToString(bytes: seq<byte>): (s: string)
    ensures |s| == if bytes == [] then 0 else 3 * |bytes| - 1
    decreases |bytes|
  {
    if bytes == [] then ""
    else if |bytes| == 1 then ByteToHex(bytes[0])
    else ByteToHex(bytes[0]) + "-" + BitConverterToString(bytes[1..])
  }

  /** Byte i sits at positions 3i and 3i+1 as its high and low digit, and a
      '-' follows it unless it is the last byte. */
  lemma {:induction false} ToStringLayout(bytes: seq<byte>, i: nat)
    requires i < |bytes|
    ensures var s := BitConverterToString(bytes);
      && s[3 * i] == HexDigit(bytes[i] as int / 16)
      && s[3 * i + 1] == HexDigit(bytes[i] as int % 16)
      && (i + 1 < |bytes| ==> s[3 * i + 2] == '-')
    decreases i
  {
    if i > 0 {
      ToStringLayout(bytes[1..], i - 1);
      var s := BitConverterToString(bytes);
      assert s == ByteToHex(bytes[0]) + "-" + BitConverterToString(bytes[1..]);
    }
  }

  /** Every character is an upper-case hexadecimal digit or the separator. */
  lemma {:induction false} ToStringAlphabet(bytes: seq<byte>)
    ensures forall c | c in BitConverterToString(bytes) :: c == '-' || '0' <= c <= '9' || 'A' <= c <= 'F'
    decreases |bytes|
  {
    if |bytes| > 1 {
      ToStringAlphabet(bytes[1..]);
    }
  }

  /** Reads back the text BitConverter.ToString writes; None for anything else. */
  function ParseHex(s: string): Option<seq<byte>>
  {
    if s == "" then Some([]) else ParseHexBytes(s)
  }

  function ParseHexBytes(s: string): Option<seq<byte>>
    decreases |s|
  {
    if |s| < 2 || HexValue(s[0]).None? || HexValue(s[1]).None? then None
    else
      var b := (HexValue(s[0]).value * 16 + HexValue(s[1]).value) as byte;
      if |s| == 2 then Some([b])
      else if s[2] != '-' then None
      else match ParseHexBytes(s[3..])
        case None => None
        case Some(rest) => Some([b] + rest)
  }

  /** The digest text determines the digest: parsing it gives the bytes back. */
  lemma {:induction false} ParseToString(bytes: seq<byte>)
    ensures ParseHex(BitConverterToString(bytes)) == Some(bytes)
    decreases |bytes|
  {
    if bytes != [] {
      var s := BitConverterToString(bytes);
      var b := bytes[0];
      HexValueOfDigit(b as int / 16);
      HexValueOfDigit(b as int % 16);
      assert s[..2] == ByteToHex(b);
      assert (b as int / 16) * 16 + b as int % 16 == b as int;
      if |bytes| == 1 {
        assert bytes == [b];
      } else {
        ParseToString(bytes[1..]);
        assert s[3..] == BitConverterToString(bytes[1..]);
        assert bytes == [b] + bytes[1..];
      }
    }
  }

  /** ParseHex accepts only text in the exact form BitConverter.ToString writes. */
  lemma {:induction false} ToStringParse(s: string, bytes: seq<byte>)
    requires ParseHex(s) == Some(bytes)
    ensures BitConverterToString(bytes) == s
    decreases |s|
  {
    if s != "" {
      var hi, lo := HexValue(s[0]).value, HexValue(s[1]).value;
      var b := (hi * 16 + lo) as byte;
      assert ByteToHex(b) == s[..2];
      if |s| > 2 {
        var rest := ParseHexBytes(s[3..]).value;
        ToStringParse(s[3..], rest);
        assert bytes == [b] + rest && bytes[1..] == rest;
        assert s == s[..2] + "-" + s[3..];
      }
    }
  }
}
