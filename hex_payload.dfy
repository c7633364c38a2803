/**
 * The payload decoder of extract_forensic_pcap.py (`hex_to_bytes`): keep the
 * hex-alphabet characters of a cell, left-pad an odd digit count with one `0`
 * nibble, and decode the digits two at a time.
 */
module HexPayload {

  type Byte = b: int | 0 <= b < 256

  /** Membership in the alphabet "0123456789abcdefABCDEF". */
  predicate IsHexDigit(c: char) {
    '0' <= c <= '9' || 'a' <= c <= 'f' || 'A' <= c <= 'F'
  }

  predicate AllHex(s: string) {
    forall k :: 0 <= k < |s| ==> IsHexDigit(s[k])
  }

  function DigitValue(c: char): (v: int)
    requires IsHexDigit(c)
    ensures 0 <= v < 16
  {
    if '0' <= c <= '9' then c as int - '0' as int
    else if 'a' <= c <= 'f' then c as int - 'a' as int + 10
    else c as int - 'A' as int + 10
  }

  /** The lower-case digit for a nibble; the inverse of DigitValue. */
  function LowerDigit(n: int): (c: char)
    requires 0 <= n < 16
    ensures IsHexDigit(c) && DigitValue(c) == n
  {
    if n < 10 then ('0' as int + n) as char else ('a' as int + n - 10) as char
  }

  /** The comprehension that keeps only hex-alphabet characters, in order. */
  function CleanHex(s: string): (d: string)
    ensures |d| <= |s|
    ensures AllHex(d)
  {
    if s == [] then []
    else if IsHexDigit(s[0]) then [s[0]] + CleanHex(s[1..])
    else CleanHex(s[1..])
  }

  /** `bytes.fromhex` on a string of an even number of hex digits and nothing else. */
  function DecodePairs(d: string): (r: seq<Byte>)
    requires |d| % 2 == 0 && AllHex(d)
    ensures |r| == |d| / 2
  {
    if d == [] then []
    else [16 * DigitValue(d[0]) + DigitValue(d[1])] + DecodePairs(d[2..])
  }

  /** `hex_to_bytes` (extract_forensic_pcap.py:94-100). */
  function HexToBytes(h: string): (r: seq<Byte>)
    ensures |r| == (|CleanHex(h)| + 1) / 2
  {
    if h == "" then []
    else
      var clean := CleanHex(h);
      var padded := if |clean| % 2 != 0 then "0" + clean else clean;
      DecodePairs(padded)
  }

  /** The value of each digit of an all-hex string. */
  function DigitValues(d: string): (v: seq<int>)
    requires AllHex(d)
    ensures |v| == |d|
  {
    if d == [] then [] else [DigitValue(d[0])] + DigitValues(d[1..])
  }

  /** Each byte as its two nibbles, high first. */
  function Nibbles(bs: seq<Byte>): (n: seq<int>)
    ensures |n| == 2 * |bs|
  {
    if bs == [] then [] else [bs[0] / 16, bs[0] % 16] + Nibbles(bs[1..])
  }

  /** Lower-case hex rendering, two digits per byte: the encoder hex_to_bytes undoes. */
  function ToHex(bs: seq<Byte>): (s: string)
    ensures |s| == 2 * |bs| && AllHex(s)
  {
    if bs == [] then "" else [LowerDigit(bs[0] / 16), LowerDigit(bs[0] % 16)] + ToHex(bs[1..])
  }

  /** Filtering distributes over concatenation, so the order of kept digits is the input order. */
  lemma {:induction false} CleanHexAppend(a: string, b: string)
    ensures CleanHex(a + b) == CleanHex(a) + CleanHex(b)
  {
    if a == [] {
      assert a + b == b;
    } else {
      assert (a + b)[0] == a[0] && (a + b)[1..] == a[1..] + b;
      CleanHexAppend(a[1..], b);
    }
  }

  /** The decoded bytes depend only on the kept digits. */
  lemma SameDigitsSameBytes(h1: string, h2: string)
    requires CleanHex(h1) == CleanHex(h2)
    ensures HexToBytes(h1) == HexToBytes(h2)
  {
  }

  /** Every hex-alphabet character is kept. */
  lemma {:induction false} CleanHexKeepsDigits(s: string)
    requires AllHex(s)
    ensures CleanHex(s) == s
  {
    if s != [] {
      CleanHexKeepsDigits(s[1..]);
    }
  }

  /** Every other character is dropped. */
  lemma {:induction false} CleanHexDropsNoise(s: string)
    requires forall k :: 0 <= k < |s| ==> !IsHexDigit(s[k])
    ensures CleanHex(s) == []
  {
    if s != [] {
      CleanHexDropsNoise(s[1..]);
    }
  }

  /** Separators between digit runs do not change the decoded bytes. */
  lemma SeparatorsIgnored(a: string, sep: string, b: string)
    requires forall k :: 0 <= k < |sep| ==> !IsHexDigit(sep[k])
    ensures HexToBytes(a + sep + b) == HexToBytes(a + b)
  {
    CleanHexAppend(a + sep, b);
    CleanHexAppend(a, sep);
    CleanHexAppend(a, b);
    CleanHexDropsNoise(sep);
    SameDigitsSameBytes(a + sep + b, a + b);
  }

  lemma {:induction false} DecodePairsNibbles(d: string)
    requires |d| % 2 == 0 && AllHex(d)
    ensures Nibbles(DecodePairs(d)) == DigitValues(d)
  {
    if d != [] {
      DecodePairsNibbles(d[2..]);
      var b := 16 * DigitValue(d[0]) + DigitValue(d[1]);
      assert b / 16 == DigitValue(d[0]) && b % 16 == DigitValue(d[1]);
      assert d[1..][1..] == d[2..];
    }
  }

  /**
   * No digit is ever lost: the nibbles of the decoded bytes are exactly the
   * kept digits, in order, after one `0` nibble when their count is odd.
   */
  lemma HexToBytesKeepsEveryDigit(h: string)
    ensures var clean := CleanHex(h);
      Nibbles(HexToBytes(h)) == (if |clean| % 2 == 1 then [0] else []) + DigitValues(clean)
  {
    var clean := CleanHex(h);
    if h != "" {
      if |clean| % 2 != 0 {
        var padded := "0" + clean;
        DecodePairsNibbles(padded);
        assert padded[1..] == clean;
      } else {
        DecodePairsNibbles(clean);
      }
    }
  }

  lemma {:induction false} DecodePairsToHex(bs: seq<Byte>)
    ensures DecodePairs(ToHex(bs)) == bs
  {
    if bs != [] {
      DecodePairsToHex(bs[1..]);
      var s := ToHex(bs);
      assert s[2..] == ToHex(bs[1..]);
      assert 16 * (bs[0] / 16) + bs[0] % 16 == bs[0];
    }
  }

  /** Decoding undoes lower-case hex encoding. */
  lemma HexRoundTrip(bs: seq<Byte>)
    ensures HexToBytes(ToHex(bs)) == bs
  {
    var s := ToHex(bs);
    CleanHexKeepsDigits(s);
    DecodePairsToHex(bs);
  }
}
