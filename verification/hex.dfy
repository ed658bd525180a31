/** The secret serialiser `stringToBytes32` of app/src/utils/commitment.js:
    UTF-8 bytes of a string, each written as two lower-case hexadecimal digits
    after a "0x" prefix. Despite its name it neither pads nor truncates to 32
    bytes. `HexToBytes` is the strict inverse used to state the round trip. */
module Hex {
  import opened Wrappers
  import opened Platform

  predicate IsHexDigit(c: char) {
    ('0' <= c <= '9') || ('a' <= c <= 'f')
  }

  /** The lower-case digit of value d, as `Number.prototype.toString(16)` writes it. */
  function HexDigit(d: int): (c: char)
    requires 0 <= d < 16
    ensures IsHexDigit(c)
  {
    if d < 10 then ('0' as int + d) as char else ('a' as int + d - 10) as char
  }

  /** The value of a lower-case hexadecimal digit; None for any other character. */
  function DigitValue(c: char): (r: Option<int>)
    ensures r.Some? <==> IsHexDigit(c)
    ensures r.Some? ==> 0 <= r.value < 16
  {
    if '0' <= c <= '9' then Some(c as int - '0' as int)
    else if 'a' <= c <= 'f' then Some(c as int - 'a' as int + 10)
    else None
  }

  /** HexDigit and DigitValue are inverse on the sixteen digits. */
  lemma DigitRoundTrip(d: int, c: char)
    ensures 0 <= d < 16 ==> DigitValue(HexDigit(d)) == Some(d)
    ensures IsHexDigit(c) ==> HexDigit(DigitValue(c).value) == c
  {
  }

  /** The byte whose high and low nibbles are hi and lo. */
  function NibblesToByte(hi: int, lo: int): (b: byte)
    requires 0 <= hi < 16 && 0 <= lo < 16
    ensures b as int / 16 == hi && b as int % 16 == lo
  {
    (hi * 16 + lo) as byte
  }

  lemma SplitNibbles(b: byte)
    ensures 0 <= b as int / 16 < 16
    ensures NibblesToByte(b as int / 16, b as int % 16) == b
  {
  }

  /** The value of a string of hexadecimal digits, most significant first. */
  function HexValue(s: string): nat
    requires forall i :: 0 <= i < |s| ==> IsHexDigit(s[i])
  {
    if |s| == 0 then 0 else HexValue(s[..|s| - 1]) * 16 + DigitValue(s[|s| - 1]).value
  }

  /** `n.toString(16)` for a non-negative integer n: the shortest digit string
      whose value is n ("0" for zero, no leading zeros otherwise). */
  function ToString16(n: nat): (s: string)
    ensures 1 <= |s|
    ensures forall i :: 0 <= i < |s| ==> IsHexDigit(s[i])
    ensures HexValue(s) == n
    ensures 1 < |s| ==> s[0] != '0'
    ensures n < 16 <==> |s| == 1
    decreases n
  {
    if n < 16 then [HexDigit(n)]
    else
      var s := ToString16(n / 16) + [HexDigit(n % 16)];
      assert s[..|s| - 1] == ToString16(n / 16);
      s
  }

  function Repeat(c: char, n: nat): (s: string)
    ensures |s| == n
    ensures forall i :: 0 <= i < n ==> s[i] == c
  {
    if n == 0 then [] else [c] + Repeat(c, n - 1)
  }

  /** `s.padStart(len, fill)` for a one-character fill. */
  function PadStart(s: string, len: nat, fill: char): (r: string)
    ensures |r| == if |s| < len then len else |s|
    ensures r[|r| - |s|..] == s
    ensures forall i :: 0 <= i < |r| - |s| ==> r[i] == fill
  {
    if len <= |s| then s else Repeat(fill, len - |s|) + s
  }

  /** One byte as `b.toString(16).padStart(2, '0')`: always two digits, high nibble first. */
  function ByteHex(b: byte): (r: string)
    ensures r == [HexDigit(b as int / 16), HexDigit(b as int % 16)]
  {
    var digits := ToString16(b as nat);
    if b < 16 then
      assert digits == [HexDigit(b as int)];
      PadStart(digits, 2, '0')
    else
      assert digits == ToString16(b as int / 16) + [HexDigit(b as int % 16)];
      PadStart(digits, 2, '0')
  }

  /** `Array.prototype.join('')` on a sequence of strings. */
  function Join(parts: seq<string>): string {
    if |parts| == 0 then "" else parts[0] + Join(parts[1..])
  }

  /** `Array.from(bytes).map(ByteHex)`. */
  function ByteHexes(bytes: Bytes): (parts: seq<string>)
    ensures |parts| == |bytes|
    ensures forall i :: 0 <= i < |bytes| ==> parts[i] == ByteHex(bytes[i])
  {
    seq(|bytes|, i requires 0 <= i < |bytes| => ByteHex(bytes[i]))
  }

  /** Joining two-character strings places part i at positions 2i and 2i+1. */
  lemma {:induction false} JoinPairs(parts: seq<string>)
    requires forall i :: 0 <= i < |parts| ==> |parts[i]| == 2
    ensures |Join(parts)| == 2 * |parts|
    ensures forall i :: 0 <= i < |parts| ==>
      Join(parts)[2 * i] == parts[i][0] && Join(parts)[2 * i + 1] == parts[i][1]
  {
    if |parts| > 0 {
      var rest := parts[1..];
      JoinPairs(rest);
      forall i | 0 <= i < |parts|
        ensures Join(parts)[2 * i] == parts[i][0] && Join(parts)[2 * i + 1] == parts[i][1]
      {
        if i > 0 {
          assert parts[i] == rest[i - 1];
          assert Join(parts)[2 * i] == Join(rest)[2 * (i - 1)];
          assert Join(parts)[2 * i + 1] == Join(rest)[2 * (i - 1) + 1];
        }
      }
    }
  }

  /** Joining digit strings gives a digit string. */
  lemma {:induction false} JoinDigits(parts: seq<string>)
    requires forall i, j :: 0 <= i < |parts| && 0 <= j < |parts[i]| ==> IsHexDigit(parts[i][j])
    ensures forall j :: 0 <= j < |Join(parts)| ==> IsHexDigit(Join(parts)[j])
  {
    if |parts| > 0 {
      JoinDigits(parts[1..]);
    }
  }

  /** The layout of the joined digit pairs: two digits per byte, high nibble first. */
  lemma BodyLayout(bytes: Bytes)
    ensures |Join(ByteHexes(bytes))| == 2 * |bytes|
    ensures forall i :: 0 <= i < |bytes| ==>
      Join(ByteHexes(bytes))[2 * i] == HexDigit(bytes[i] as int / 16) &&
      Join(ByteHexes(bytes))[2 * i + 1] == HexDigit(bytes[i] as int % 16)
    ensures forall j :: 0 <= j < |Join(ByteHexes(bytes))| ==> IsHexDigit(Join(ByteHexes(bytes))[j])
  {
    var parts := ByteHexes(bytes);
    JoinPairs(parts);
    forall i | 0 <= i < |bytes|
      ensures Join(parts)[2 * i] == HexDigit(bytes[i] as int / 16)
      ensures Join(parts)[2 * i + 1] == HexDigit(bytes[i] as int % 16)
    {
      assert parts[i] == ByteHex(bytes[i]);
    }
    DigitsOfByteHexes(bytes);
    JoinDigits(parts);
  }

  lemma DigitsOfByteHexes(bytes: Bytes)
    ensures forall i, j :: 0 <= i < |ByteHexes(bytes)| && 0 <= j < |ByteHexes(bytes)[i]| ==>
      IsHexDigit(ByteHexes(bytes)[i][j])
  {
  }

  /** The hexadecimal serialisation of a byte string: "0x", then two lower-case
      digits per byte, high nibble first, with nothing added or dropped. */
  function HexEncode(bytes: Bytes): (r: string)
    ensures |r| == 2 + 2 * |bytes|
    ensures r[..2] == "0x"
    ensures forall i :: 0 <= i < |bytes| ==>
      r[2 + 2 * i] == HexDigit(bytes[i] as int / 16) && r[3 + 2 * i] == HexDigit(bytes[i] as int % 16)
    ensures forall j :: 2 <= j < |r| ==> IsHexDigit(r[j])
  {
    BodyLayout(bytes);
    "0x" + Join(ByteHexes(bytes))
  }

  /** `stringToBytes32(str)`: the string's UTF-8 bytes (TextEncoder), serialised by HexEncode. */
  function StringToBytes32(textEncode: string -> Bytes, str: string): (r: string)
    ensures |r| == 2 + 2 * |textEncode(str)|
    ensures HexToBytes(r) == Some(textEncode(str))
  {
    HexEncodeRoundTrip(textEncode(str));
    HexEncode(textEncode(str))
  }

  /** Decodes digit pairs; None on an odd length or a character that is not a lower-case digit. */
  function DecodePairs(s: string): (r: Option<Bytes>)
    ensures r.Some? ==> |s| == 2 * |r.value|
  {
    if |s| == 0 then Some([])
    else if |s| == 1 then None
    else
      var hi := DigitValue(s[0]);
      var lo := DigitValue(s[1]);
      var rest := DecodePairs(s[2..]);
      if hi.Some? && lo.Some? && rest.Some? then Some([NibblesToByte(hi.value, lo.value)] + rest.value)
      else None
  }

  /** The strict inverse of HexEncode: "0x" followed by lower-case digit pairs. */
  function HexToBytes(s: string): Option<Bytes> {
    if |s| < 2 || s[..2] != "0x" then None else DecodePairs(s[2..])
  }

  /** s holds, for every byte, its high and then its low digit. */
  predicate PairsEncode(s: string, bytes: Bytes) {
    && |s| == 2 * |bytes|
    && forall i :: 0 <= i < |bytes| ==>
         s[2 * i] == HexDigit(bytes[i] as int / 16) && s[2 * i + 1] == HexDigit(bytes[i] as int % 16)
  }

  /** Whatever the pair decoder returns is encoded by its input. */
  lemma {:induction false} DecodePairsSound(s: string, bytes: Bytes)
    requires DecodePairs(s) == Some(bytes)
    ensures PairsEncode(s, bytes)
  {
    if |s| > 0 {
      var hi := DigitValue(s[0]).value;
      var lo := DigitValue(s[1]).value;
      var rest := DecodePairs(s[2..]).value;
      DecodePairsSound(s[2..], rest);
      assert bytes == [NibblesToByte(hi, lo)] + rest;
      DigitRoundTrip(0, s[0]);
      DigitRoundTrip(0, s[1]);
      forall i | 0 <= i < |bytes|
        ensures s[2 * i] == HexDigit(bytes[i] as int / 16) && s[2 * i + 1] == HexDigit(bytes[i] as int % 16)
      {
        if i > 0 {
          assert bytes[i] == rest[i - 1];
          assert s[2 * i] == s[2..][2 * (i - 1)];
          assert s[2 * i + 1] == s[2..][2 * (i - 1) + 1];
        }
      }
    }
  }

  /** The pair decoder accepts every encoding and returns the encoded bytes. */
  lemma {:induction false} DecodePairsComplete(s: string, bytes: Bytes)
    requires PairsEncode(s, bytes)
    ensures DecodePairs(s) == Some(bytes)
  {
    if |bytes| > 0 {
      var b := bytes[0];
      var rest := bytes[1..];
      assert PairsEncode(s[2..], rest) by {
        forall i | 0 <= i < |rest|
          ensures s[2..][2 * i] == HexDigit(rest[i] as int / 16)
          ensures s[2..][2 * i + 1] == HexDigit(rest[i] as int % 16)
        {
          assert rest[i] == bytes[i + 1];
          assert s[2 * (i + 1)] == HexDigit(bytes[i + 1] as int / 16);
          assert s[2 * (i + 1) + 1] == HexDigit(bytes[i + 1] as int % 16);
        }
      }
      DecodePairsComplete(s[2..], rest);
      assert s[0] == HexDigit(b as int / 16) && s[1] == HexDigit(b as int % 16);
      SplitNibbles(b);
      DigitRoundTrip(b as int / 16, ' ');
      DigitRoundTrip(b as int % 16, ' ');
      assert [b] + rest == bytes;
    }
  }

  /** Decoding the serialisation recovers the bytes. */
  lemma HexEncodeRoundTrip(bytes: Bytes)
    ensures HexToBytes(HexEncode(bytes)) == Some(bytes)
  {
    var r := HexEncode(bytes);
    assert PairsEncode(r[2..], bytes) by {
      forall i | 0 <= i < |bytes|
        ensures r[2..][2 * i] == HexDigit(bytes[i] as int / 16)
        ensures r[2..][2 * i + 1] == HexDigit(bytes[i] as int % 16)
      {
        assert r[2..][2 * i] == r[2 + 2 * i];
        assert r[2..][2 * i + 1] == r[3 + 2 * i];
      }
    }
    DecodePairsComplete(r[2..], bytes);
  }

  /** At most one string encodes given bytes. */
  lemma PairsEncodeUnique(t: string, u: string, bytes: Bytes)
    requires PairsEncode(t, bytes) && PairsEncode(u, bytes)
    ensures t == u
  {
    forall j | 0 <= j < |t|
      ensures t[j] == u[j]
    {
      var i := j / 2;
      assert 0 <= i < |bytes| && (j == 2 * i || j == 2 * i + 1);
      assert t[2 * i] == u[2 * i] && t[2 * i + 1] == u[2 * i + 1];
    }
  }

  /** Every string the decoder accepts is the serialisation of what it decodes to,
      so the decoder accepts nothing but HexEncode's outputs. */
  lemma HexToBytesInverse(s: string, bytes: Bytes)
    requires HexToBytes(s) == Some(bytes)
    ensures HexEncode(bytes) == s
  {
    var r := HexEncode(bytes);
    DecodePairsSound(s[2..], bytes);
    HexEncodeRoundTrip(bytes);
    DecodePairsSound(r[2..], bytes);
    PairsEncodeUnique(r[2..], s[2..], bytes);
    assert r == r[..2] + r[2..];
    assert s == s[..2] + s[2..];
  }

  /** No padding to 32 bytes: the serialisation is bytes32-sized exactly when the
      input has 32 bytes; the empty input gives "0x" and longer inputs give longer strings. */
  lemma NotPaddedTo32(bytes: Bytes)
    ensures |HexEncode(bytes)| == 66 <==> |bytes| == 32
    ensures HexEncode([]) == "0x"
    ensures |bytes| > 32 ==> |HexEncode(bytes)| > 66
  {
  }
}
