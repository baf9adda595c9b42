/** Bytes, and `Encoding.UTF8.GetBytes` over Unicode scalar values. */
module Bytes {
  import opened Text

  type byte = b: int | 0 <= b < 256

  /** The UTF-8 encoding of one Unicode scalar value: one to four bytes. */
  function Utf8Char(c: char): (r: seq<byte>)
    ensures 1 <= |r| <= 4
    ensures (c as int < 0x80) <==> (|r| == 1)
    ensures c as int < 0x80 ==> r == [c as int]
    ensures c as int >= 0x80 ==> forall i :: 0 <= i < |r| ==> r[i] >= 0x80
  {
    var v := c as int;
    if v < 0x80 then [v]
    else if v < 0x800 then [0xC0 + v / 64, 0x80 + v % 64]
    else if v < 0x1_0000 then [0xE0 + v / 4096, 0x80 + (v / 64) % 64, 0x80 + v % 64]
    else [0xF0 + v / 0x4_0000, 0x80 + (v / 4096) % 64, 0x80 + (v / 64) % 64, 0x80 + v % 64]
  }

  /** `Encoding.UTF8.GetBytes(s)` */
  function Utf8Encode(s: string): (r: seq<byte>)
    ensures |s| <= |r| <= 4 * |s|
  {
    if s == [] then [] else Utf8Char(s[0]) + Utf8Encode(s[1..])
  }

  predicate IsAscii(s: string) {
    forall i :: 0 <= i < |s| ==> s[i] as int < 0x80
  }

  /** ASCII text encodes to one byte per character, each its code point. */
  lemma {:induction false} Utf8EncodeAscii(s: string)
    requires IsAscii(s)
    ensures |Utf8Encode(s)| == |s|
    ensures forall i :: 0 <= i < |s| ==> Utf8Encode(s)[i] == s[i] as int
  {
    if s != [] {
      Utf8EncodeAscii(s[1..]);
    }
  }

  /** Exactly the ASCII strings encode to as many bytes as they have characters. */
  lemma {:induction false} Utf8LengthIsCharCountOnlyForAscii(s: string)
    ensures |Utf8Encode(s)| == |s| <==> IsAscii(s)
  {
    if s != [] {
      Utf8LengthIsCharCountOnlyForAscii(s[1..]);
      assert IsAscii(s) <==> s[0] as int < 0x80 && IsAscii(s[1..]) by {
        assert forall i :: 1 <= i < |s| ==> s[i] == s[1..][i - 1];
      }
    }
  }

  lemma {:induction false} Utf8EncodeConcat(a: string, b: string)
    ensures Utf8Encode(a + b) == Utf8Encode(a) + Utf8Encode(b)
  {
    if a == [] {
      assert a + b == b;
    } else {
      assert (a + b)[1..] == a[1..] + b;
      Utf8EncodeConcat(a[1..], b);
    }
  }

  function Reverse<T>(s: seq<T>): (r: seq<T>)
    ensures |r| == |s|
    ensures forall i :: 0 <= i < |s| ==> r[i] == s[|s| - 1 - i]
  {
    if s == [] then [] else Reverse(s[1..]) + [s[0]]
  }

  // ---------------------------------------------------------------- hexadecimal text

  predicate AllHex(t: string) {
    forall i :: 0 <= i < |t| ==> IsHexDigit(t[i])
  }

  /** Two lower-case hex digits per byte, high nibble first, no separators. */
  function LowerHex(bs: seq<byte>): (t: string)
    ensures |t| == 2 * |bs| && AllHex(t)
  {
    seq(2 * |bs|, i requires 0 <= i < 2 * |bs| =>
      if i % 2 == 0 then LowerHexDigit(bs[i / 2] / 16) else LowerHexDigit(bs[i / 2] % 16))
  }

  /** The bytes spelt by an even-length run of hex digits, two digits per byte. */
  function HexPairs(t: string): (bs: seq<byte>)
    requires |t| % 2 == 0 && AllHex(t)
    ensures |bs| == |t| / 2
  {
    seq(|t| / 2, i requires 0 <= i < |t| / 2 => 16 * HexValue(t[2 * i]) + HexValue(t[2 * i + 1]))
  }

  /** Reading the hex back gives the bytes. */
  lemma HexPairsOfLowerHex(bs: seq<byte>)
    ensures HexPairs(LowerHex(bs)) == bs
  {
    var t := LowerHex(bs);
    forall i | 0 <= i < |bs| ensures HexPairs(t)[i] == bs[i] {
      LowerHexAt(bs, i);
      assert HexPairs(t)[i] == 16 * (bs[i] / 16) + bs[i] % 16;
    }
  }

  lemma NibblesOf(h: nat, l: nat)
    requires h < 16 && l < 16
    ensures (16 * h + l) / 16 == h && (16 * h + l) % 16 == l
  {
  }

  lemma LowerHexAt(bs: seq<byte>, k: nat)
    requires k < |bs|
    ensures LowerHex(bs)[2 * k] == LowerHexDigit(bs[k] / 16)
    ensures LowerHex(bs)[2 * k + 1] == LowerHexDigit(bs[k] % 16)
  {
    assert (2 * k) / 2 == k && (2 * k) % 2 == 0;
    assert (2 * k + 1) / 2 == k && (2 * k + 1) % 2 == 1;
  }

  /** Writing out the bytes of a hex run gives the run, lower-cased. */
  lemma LowerHexOfHexPairs(t: string)
    requires |t| % 2 == 0 && AllHex(t)
    ensures LowerHex(HexPairs(t)) == ToLowerAscii(t)
  {
    var bs := HexPairs(t);
    var u := LowerHex(bs);
    assert |u| == |t|;
    forall i | 0 <= i < |t| ensures u[i] == LowerAscii(t[i]) {
      var k := i / 2;
      assert i == 2 * k || i == 2 * k + 1;
      HexPairAt(t, k);
      LowerHexAt(bs, k);
      LowerHexDigitOf(t[i]);
    }
  }

  lemma HexPairAt(t: string, k: nat)
    requires |t| % 2 == 0 && AllHex(t) && k < |t| / 2
    ensures 2 * k + 1 < |t|
    ensures HexPairs(t)[k] / 16 == HexValue(t[2 * k])
    ensures HexPairs(t)[k] % 16 == HexValue(t[2 * k + 1])
  {
    NibblesOf(HexValue(t[2 * k]), HexValue(t[2 * k + 1]));
  }
}
