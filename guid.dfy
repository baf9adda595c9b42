/**
 * `Guid.TryParseExact(text, "D", out g)` and `g.ToByteArray()`.
 *
 * The "D" format is 32 hex digits in five groups of 8-4-4-4-12, separated by hyphens.
 * `ToByteArray` writes the first three groups as little-endian integers (their digit
 * pairs reversed) and the last two in text order, so its bytes are not the network
 * byte order of section 4.1.2 of RFC 4122.
 */
module Guid {
  import opened Wrappers
  import opened Text
  import opened Bytes

  /** The strict "D" layout: `xxxxxxxx-xxxx-xxxx-xxxx-xxxxxxxxxxxx`. */
  predicate IsDFormat(t: string) {
    && |t| == 36
    && t[8] == '-' && t[13] == '-' && t[18] == '-' && t[23] == '-'
    && AllHex(t[0..8]) && AllHex(t[9..13]) && AllHex(t[14..18])
    && AllHex(t[19..23]) && AllHex(t[24..36])
  }

  /** The 16 bytes `ToByteArray` returns for a well-formed "D" text. */
  function ByteArrayOf(t: string): (b: seq<byte>)
    requires IsDFormat(t)
    ensures |b| == 16
    ensures var n := NetworkOrderOf(t);
      b == Reverse(n[0..4]) + Reverse(n[4..6]) + Reverse(n[6..8]) + n[8..]
  {
    var h1, h2, h3, h4, h5 := HexPairs(t[0..8]), HexPairs(t[9..13]), HexPairs(t[14..18]), HexPairs(t[19..23]), HexPairs(t[24..36]);
    GroupsReversed(h1, h2, h3, h4, h5);
    Reverse(h1) + Reverse(h2) + Reverse(h3) + h4 + h5
  }

  /** The same UUID in the network byte order of section 4.1.2 of RFC 4122: text order. */
  function NetworkOrderOf(t: string): (b: seq<byte>)
    requires IsDFormat(t)
    ensures |b| == 16
  {
    HexPairs(t[0..8]) + HexPairs(t[9..13]) + HexPairs(t[14..18])
      + HexPairs(t[19..23]) + HexPairs(t[24..36])
  }

  /**
   * `Guid.TryParseExact(s, "D", out g) ? g.ToByteArray() : null`: the input is trimmed
   * of white space, then must have the strict "D" layout.
   */
  function TryParseExactD(s: string): (r: Option<seq<byte>>)
    ensures r.Some? <==> IsDFormat(Trim(s))
    ensures r.Some? ==> |r.value| == 16
  {
    var t := Trim(s);
    if IsDFormat(t) then Some(ByteArrayOf(t)) else None
  }

  /** `new Guid(b).ToString()`: the lower-case "D" text of a 16-byte array. */
  function FormatD(b: seq<byte>): (t: string)
    requires |b| == 16
    ensures |t| == 36
  {
    Hyphenate(LowerHex(Reverse(b[0..4])), LowerHex(Reverse(b[4..6])), LowerHex(Reverse(b[6..8])),
              LowerHex(b[8..10]), LowerHex(b[10..16]))
  }

  /** Five groups joined by hyphens. */
  function Hyphenate(g1: string, g2: string, g3: string, g4: string, g5: string): string {
    g1 + "-" + g2 + "-" + g3 + "-" + g4 + "-" + g5
  }

  /** Where the groups and hyphens of an 8-4-4-4-12 text sit. */
  lemma HyphenateGroups(g1: string, g2: string, g3: string, g4: string, g5: string)
    requires |g1| == 8 && |g2| == 4 && |g3| == 4 && |g4| == 4 && |g5| == 12
    ensures var t := Hyphenate(g1, g2, g3, g4, g5);
      && |t| == 36
      && t[0..8] == g1 && t[9..13] == g2 && t[14..18] == g3 && t[19..23] == g4 && t[24..36] == g5
      && t[8] == '-' && t[13] == '-' && t[18] == '-' && t[23] == '-'
  {
    var t := Hyphenate(g1, g2, g3, g4, g5);
    var p1, p2, p3, p4 := g1 + "-", g2 + "-", g3 + "-", g4 + "-";
    assert t == p1 + p2 + p3 + p4 + g5;
    Pieces5(p1, p2, p3, p4, g5);
    assert t[0..8] == t[..9][..8] && p1[..8] == g1;
    assert t[9..13] == t[9..14][..4] && p2[..4] == g2;
    assert t[14..18] == t[14..19][..4] && p3[..4] == g3;
    assert t[19..23] == t[19..24][..4] && p4[..4] == g4;
    assert t[8] == p1[8] && t[13] == p2[4] && t[18] == p3[4] && t[23] == p4[4];
  }

  /** The groups of FormatD's text, each the hex of its bytes. */
  lemma FormatDGroups(b: seq<byte>)
    requires |b| == 16
    ensures var t := FormatD(b);
      && t[0..8] == LowerHex(Reverse(b[0..4])) && t[9..13] == LowerHex(Reverse(b[4..6]))
      && t[14..18] == LowerHex(Reverse(b[6..8])) && t[19..23] == LowerHex(b[8..10])
      && t[24..36] == LowerHex(b[10..16])
      && t[8] == '-' && t[13] == '-' && t[18] == '-' && t[23] == '-'
  {
    HyphenateGroups(LowerHex(Reverse(b[0..4])), LowerHex(Reverse(b[4..6])), LowerHex(Reverse(b[6..8])),
                    LowerHex(b[8..10]), LowerHex(b[10..16]));
  }

  lemma FormatDIsD(b: seq<byte>)
    requires |b| == 16
    ensures IsDFormat(FormatD(b)) && Trim(FormatD(b)) == FormatD(b)
  {
    var t := FormatD(b);
    FormatDGroups(b);
    assert IsHexDigit(t[0]) by { assert t[0] == t[0..8][0]; }
    assert IsHexDigit(t[35]) by { assert t[35] == t[24..36][11]; }
  }

  lemma ReverseReverse<T>(s: seq<T>)
    ensures Reverse(Reverse(s)) == s
  {
  }

  /**
   * Round trip: the text a GUID prints as parses back to the same bytes.
   */
  lemma ParseFormatD(b: seq<byte>)
    requires |b| == 16
    ensures TryParseExactD(FormatD(b)) == Some(b)
  {
    FormatDIsD(b);
    Group1(b);
    Group2(b);
    Group3(b);
    Group4(b);
    Group5(b);
    AssembleByteArray(b, FormatD(b));
  }

  /** The groups decoded one at a time give the whole byte array. */
  lemma AssembleByteArray(b: seq<byte>, t: string)
    requires |b| == 16 && IsDFormat(t)
    requires Reverse(HexPairs(t[0..8])) == b[0..4] && Reverse(HexPairs(t[9..13])) == b[4..6]
    requires Reverse(HexPairs(t[14..18])) == b[6..8] && HexPairs(t[19..23]) == b[8..10]
    requires HexPairs(t[24..36]) == b[10..16]
    ensures ByteArrayOf(t) == b
  {
    assert b[0..4] + b[4..6] == b[0..6];
    assert b[0..6] + b[6..8] == b[0..8];
    assert b[0..8] + b[8..10] == b[0..10];
    assert b[0..10] + b[10..16] == b;
  }

  lemma Group1(b: seq<byte>)
    requires |b| == 16 && IsDFormat(FormatD(b))
    ensures Reverse(HexPairs(FormatD(b)[0..8])) == b[0..4]
  {
    FormatDGroups(b);
    assert FormatD(b)[0..8] == LowerHex(Reverse(b[0..4]));
    ReversedGroup(b[0..4]);
  }

  lemma Group2(b: seq<byte>)
    requires |b| == 16 && IsDFormat(FormatD(b))
    ensures Reverse(HexPairs(FormatD(b)[9..13])) == b[4..6]
  {
    FormatDGroups(b);
    assert FormatD(b)[9..13] == LowerHex(Reverse(b[4..6]));
    ReversedGroup(b[4..6]);
  }

  lemma Group3(b: seq<byte>)
    requires |b| == 16 && IsDFormat(FormatD(b))
    ensures Reverse(HexPairs(FormatD(b)[14..18])) == b[6..8]
  {
    FormatDGroups(b);
    assert FormatD(b)[14..18] == LowerHex(Reverse(b[6..8]));
    ReversedGroup(b[6..8]);
  }

  lemma Group4(b: seq<byte>)
    requires |b| == 16 && IsDFormat(FormatD(b))
    ensures HexPairs(FormatD(b)[19..23]) == b[8..10]
  {
    FormatDGroups(b);
    assert FormatD(b)[19..23] == LowerHex(b[8..10]);
    HexPairsOfLowerHex(b[8..10]);
  }

  lemma Group5(b: seq<byte>)
    requires |b| == 16 && IsDFormat(FormatD(b))
    ensures HexPairs(FormatD(b)[24..36]) == b[10..16]
  {
    FormatDGroups(b);
    assert FormatD(b)[24..36] == LowerHex(b[10..16]);
    HexPairsOfLowerHex(b[10..16]);
  }

  lemma ReversedGroup(x: seq<byte>)
    ensures Reverse(HexPairs(LowerHex(Reverse(x)))) == x
  {
    HexPairsOfLowerHex(Reverse(x));
    ReverseReverse(x);
  }

  /**
   * Round trip the other way: the bytes of an accepted text print as that text,
   * trimmed and lower-cased.
   */
  lemma FormatParsedD(s: string)
    requires TryParseExactD(s).Some?
    ensures FormatD(TryParseExactD(s).value) == ToLowerAscii(Trim(s))
  {
    var t := Trim(s);
    var b := ByteArrayOf(t);
    var t1, t2, t3, t4, t5 := t[0..8], t[9..13], t[14..18], t[19..23], t[24..36];
    ByteArrayGroups(t);
    ReversedGroupPrints(t1, b[0..4]);
    ReversedGroupPrints(t2, b[4..6]);
    ReversedGroupPrints(t3, b[6..8]);
    LowerHexOfHexPairs(t4);
    LowerHexOfHexPairs(t5);
    assert FormatD(b) == Hyphenate(ToLowerAscii(t1), ToLowerAscii(t2), ToLowerAscii(t3), ToLowerAscii(t4), ToLowerAscii(t5));
    HyphenateLower(t1, t2, t3, t4, t5);
    DFormatHyphenated(t);
  }

  /** A "D" text is its five groups joined by hyphens. */
  lemma DFormatHyphenated(t: string)
    requires IsDFormat(t)
    ensures t == Hyphenate(t[0..8], t[9..13], t[14..18], t[19..23], t[24..36])
  {
    assert t[8..9] == "-" && t[13..14] == "-" && t[18..19] == "-" && t[23..24] == "-";
    assert t[0..8] + t[8..9] == t[0..9];
    assert t[0..9] + t[9..13] == t[0..13];
    assert t[0..13] + t[13..14] == t[0..14];
    assert t[0..14] + t[14..18] == t[0..18];
    assert t[0..18] + t[18..19] == t[0..19];
    assert t[0..19] + t[19..23] == t[0..23];
    assert t[0..23] + t[23..24] == t[0..24];
    assert t[0..24] + t[24..36] == t;
  }

  /** Lower-casing a hyphenated text lower-cases each group. */
  lemma HyphenateLower(g1: string, g2: string, g3: string, g4: string, g5: string)
    ensures ToLowerAscii(Hyphenate(g1, g2, g3, g4, g5))
         == Hyphenate(ToLowerAscii(g1), ToLowerAscii(g2), ToLowerAscii(g3), ToLowerAscii(g4), ToLowerAscii(g5))
  {
    var d := "-";
    assert ToLowerAscii(d) == d;
    ToLowerAsciiConcat(g1, d);
    ToLowerAsciiConcat(g1 + d, g2);
    ToLowerAsciiConcat(g1 + d + g2, d);
    ToLowerAsciiConcat(g1 + d + g2 + d, g3);
    ToLowerAsciiConcat(g1 + d + g2 + d + g3, d);
    ToLowerAsciiConcat(g1 + d + g2 + d + g3 + d, g4);
    ToLowerAsciiConcat(g1 + d + g2 + d + g3 + d + g4, d);
    ToLowerAsciiConcat(g1 + d + g2 + d + g3 + d + g4 + d, g5);
  }

  /** A group stored byte-reversed prints back as its text, lower-cased. */
  lemma ReversedGroupPrints(g: string, bs: seq<byte>)
    requires |g| % 2 == 0 && AllHex(g) && bs == Reverse(HexPairs(g))
    ensures LowerHex(Reverse(bs)) == ToLowerAscii(g)
  {
    ReverseReverse(HexPairs(g));
    LowerHexOfHexPairs(g);
  }

  lemma ByteArrayGroups(t: string)
    requires IsDFormat(t)
    ensures var b := ByteArrayOf(t);
      && b[0..4] == Reverse(HexPairs(t[0..8])) && b[4..6] == Reverse(HexPairs(t[9..13]))
      && b[6..8] == Reverse(HexPairs(t[14..18])) && b[8..10] == HexPairs(t[19..23])
      && b[10..16] == HexPairs(t[24..36])
  {
    Pieces5(Reverse(HexPairs(t[0..8])), Reverse(HexPairs(t[9..13])), Reverse(HexPairs(t[14..18])),
            HexPairs(t[19..23]), HexPairs(t[24..36]));
  }

  /** Reversing the first three groups of a 4-2-2-byte prefix, read back from the joined bytes. */
  lemma GroupsReversed<T>(h1: seq<T>, h2: seq<T>, h3: seq<T>, h4: seq<T>, h5: seq<T>)
    requires |h1| == 4 && |h2| == 2 && |h3| == 2
    ensures var n := h1 + h2 + h3 + h4 + h5;
      Reverse(n[0..4]) + Reverse(n[4..6]) + Reverse(n[6..8]) + n[8..]
      == Reverse(h1) + Reverse(h2) + Reverse(h3) + h4 + h5
  {
    var n := h1 + h2 + h3 + h4 + h5;
    Pieces5(h1, h2, h3, h4, h5);
    assert n == (h1 + h2 + h3) + (h4 + h5);
    assert n[8..] == h4 + h5;
  }

  /** The pieces of a five-part concatenation sit at the running sums of their lengths. */
  lemma Pieces5<T>(a: seq<T>, b: seq<T>, c: seq<T>, d: seq<T>, e: seq<T>)
    ensures var s, i, j, k, l := a + b + c + d + e, |a|, |a| + |b|, |a| + |b| + |c|, |a| + |b| + |c| + |d|;
      && s[..i] == a && s[i..j] == b && s[j..k] == c && s[k..l] == d && s[l..] == e
  {
    var ab := a + b;
    var abc := ab + c;
    var abcd := abc + d;
    var s := abcd + e;
    assert s[..|abcd|] == abcd && s[|abcd|..] == e;
    assert abcd[..|abc|] == abc && abcd[|abc|..] == d;
    assert abc[..|ab|] == ab && abc[|ab|..] == c;
    assert ab[..|a|] == a && ab[|a|..] == b;
    assert s[|abc|..|abcd|] == abcd[|abc|..];
    assert s[|ab|..|abc|] == abc[|ab|..];
    assert s[|a|..|ab|] == ab[|a|..];
    assert s[..|a|] == ab[..|a|];
  }

  /**
   * The byte order of `ToByteArray`: the first three groups are the RFC 4122 bytes
   * reversed, the last eight bytes are unchanged.
   */
  lemma ByteArrayIsMixedEndian(t: string)
    requires IsDFormat(t)
    ensures var g, n := ByteArrayOf(t), NetworkOrderOf(t);
      && g[0] == n[3] && g[1] == n[2] && g[2] == n[1] && g[3] == n[0]
      && g[4] == n[5] && g[5] == n[4] && g[6] == n[7] && g[7] == n[6]
      && g[8..] == n[8..]
  {
    var h1, h2, h3 := HexPairs(t[0..8]), HexPairs(t[9..13]), HexPairs(t[14..18]);
    var tail := HexPairs(t[19..23]) + HexPairs(t[24..36]);
    assert NetworkOrderOf(t) == h1 + h2 + h3 + tail;
    assert ByteArrayOf(t) == Reverse(h1) + Reverse(h2) + Reverse(h3) + tail;
  }
}
