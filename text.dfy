/**
 * The pieces of the .NET string library that the core relies on, written out over
 * `string` (a sequence of Unicode scalar values).  Case folding is modelled on the
 * ASCII letters only.
 */
module Text {
  import opened Wrappers

  /** `char.IsWhiteSpace`: the Unicode space separators, line and paragraph separators,
      U+0009..U+000D, U+0085 and U+00A0. */
  predicate IsWhiteSpace(c: char) {
    || '\U{9}' <= c <= '\U{D}' || c == ' ' || c == '\U{85}' || c == '\U{A0}'
    || c == '\U{1680}' || '\U{2000}' <= c <= '\U{200A}' || c == '\U{2028}' || c == '\U{2029}'
    || c == '\U{202F}' || c == '\U{205F}' || c == '\U{3000}'
  }

  /** `string.IsNullOrEmpty` */
  predicate IsNullOrEmpty(s: Option<string>) {
    s.None? || s.value == ""
  }

  /** `string.IsNullOrWhiteSpace` */
  predicate IsNullOrWhiteSpace(s: Option<string>) {
    s.None? || forall i :: 0 <= i < |s.value| ==> IsWhiteSpace(s.value[i])
  }

  /** A chain of `s.Replace(x, "")` calls, one per character of `cs`. */
  function RemoveChars(s: string, cs: set<char>): (r: string)
    ensures |r| <= |s|
    ensures forall i :: 0 <= i < |r| ==> r[i] !in cs
    ensures (forall i :: 0 <= i < |s| ==> s[i] !in cs) ==> r == s
  {
    if s == [] then []
    else if s[0] in cs then RemoveChars(s[1..], cs)
    else [s[0]] + RemoveChars(s[1..], cs)
  }

  lemma {:induction false} RemoveCharsConcat(a: string, b: string, cs: set<char>)
    ensures RemoveChars(a + b, cs) == RemoveChars(a, cs) + RemoveChars(b, cs)
  {
    if a != [] {
      assert (a + b)[1..] == a[1..] + b;
      RemoveCharsConcat(a[1..], b, cs);
    } else {
      assert a + b == b;
    }
  }

  function LowerAscii(c: char): (r: char)
    ensures 'A' <= c <= 'Z' ==> 'a' <= r <= 'z'
    ensures !('A' <= c <= 'Z') ==> r == c
  {
    if 'A' <= c <= 'Z' then (c as int - 'A' as int + 'a' as int) as char else c
  }

  /** `ToLowerInvariant`, on the ASCII letters. */
  function ToLowerAscii(s: string): (r: string)
    ensures |r| == |s|
    ensures forall i :: 0 <= i < |s| ==> r[i] == LowerAscii(s[i])
  {
    if s == [] then [] else [LowerAscii(s[0])] + ToLowerAscii(s[1..])
  }

  lemma ToLowerAsciiConcat(a: string, b: string)
    ensures ToLowerAscii(a + b) == ToLowerAscii(a) + ToLowerAscii(b)
  {
  }

  /** Ordinal case-insensitive equality on ASCII letters. */
  predicate EqualsIgnoreCase(a: string, b: string) {
    ToLowerAscii(a) == ToLowerAscii(b)
  }

  /** `s.StartsWith(p)`, compared ordinally. */
  predicate StartsWith(s: string, p: string) {
    p <= s
  }

  /** `s.TrimStart(c)`: drops every leading `c`. */
  function TrimStartChar(s: string, c: char): (r: string)
    ensures |r| <= |s| && r == s[|s| - |r|..]
    ensures r == [] || r[0] != c
    ensures (s == [] || s[0] != c) ==> r == s
    ensures forall j :: 0 <= j < |s| - |r| ==> s[j] == c
  {
    if s != [] && s[0] == c then TrimStartChar(s[1..], c) else s
  }

  /** `s.Trim()`: drops leading and trailing white space. */
  function Trim(s: string): (r: string)
    ensures |r| <= |s|
    ensures r != [] ==> !IsWhiteSpace(r[0]) && !IsWhiteSpace(r[|r| - 1])
    ensures (s == [] || (!IsWhiteSpace(s[0]) && !IsWhiteSpace(s[|s| - 1]))) ==> r == s
  {
    TrimEnd(TrimStart(s))
  }

  function TrimStart(s: string): (r: string)
    ensures |r| <= |s|
    ensures r != [] ==> !IsWhiteSpace(r[0]) && r == s[|s| - |r|..]
    ensures (s == [] || !IsWhiteSpace(s[0])) ==> r == s
  {
    if s != [] && IsWhiteSpace(s[0]) then TrimStart(s[1..]) else s
  }

  function TrimEnd(s: string): (r: string)
    ensures |r| <= |s| && r == s[..|r|]
    ensures r != [] ==> !IsWhiteSpace(r[|r| - 1])
    ensures (s == [] || !IsWhiteSpace(s[|s| - 1])) ==> r == s
  {
    if s != [] && IsWhiteSpace(s[|s| - 1]) then TrimEnd(s[..|s| - 1]) else s
  }

  /** `s.IndexOfAny(cs)`, with `|s|` for "not found". */
  function IndexOfAny(s: string, cs: set<char>): (i: nat)
    ensures i <= |s|
    ensures forall j :: 0 <= j < i ==> s[j] !in cs
    ensures i < |s| ==> s[i] in cs
  {
    if s == [] then 0
    else if s[0] in cs then 0
    else 1 + IndexOfAny(s[1..], cs)
  }

  /** The position a scan for `cs` stops at is determined by the two facts IndexOfAny ensures. */
  lemma IndexOfAnyAt(s: string, cs: set<char>, i: nat)
    requires i <= |s|
    requires forall j :: 0 <= j < i ==> s[j] !in cs
    requires i < |s| ==> s[i] in cs
    ensures IndexOfAny(s, cs) == i
  {
    if s != [] && s[0] !in cs {
      assert i > 0;
      IndexOfAnyAt(s[1..], cs, i - 1);
    }
  }

  /** `s.LastIndexOf(c)`, with -1 for "not found". */
  function LastIndexOf(s: string, c: char): (i: int)
    ensures -1 <= i < |s|
    ensures forall j :: i < j < |s| ==> s[j] != c
    ensures i >= 0 ==> s[i] == c
  {
    if s == [] then -1
    else if s[|s| - 1] == c then |s| - 1
    else LastIndexOf(s[..|s| - 1], c)
  }

  lemma LastIndexOfAt(s: string, c: char, i: int)
    requires -1 <= i < |s|
    requires forall j :: i < j < |s| ==> s[j] != c
    requires i >= 0 ==> s[i] == c
    ensures LastIndexOf(s, c) == i
  {
    if s != [] && s[|s| - 1] != c {
      assert i < |s| - 1;
      LastIndexOfAt(s[..|s| - 1], c, i);
    }
  }

  /** No character of `s` is in `cs`. */
  predicate Avoids(s: string, cs: set<char>) {
    forall i :: 0 <= i < |s| ==> s[i] !in cs
  }

  lemma AvoidsConcat(a: string, b: string, cs: set<char>)
    ensures Avoids(a + b, cs) <==> Avoids(a, cs) && Avoids(b, cs)
  {
    if Avoids(a, cs) && Avoids(b, cs) {
      forall i | 0 <= i < |a + b| ensures (a + b)[i] !in cs {
        if i >= |a| { assert (a + b)[i] == b[i - |a|]; }
      }
    }
    if Avoids(a + b, cs) {
      forall i | 0 <= i < |a| ensures a[i] !in cs {
        assert (a + b)[i] == a[i];
      }
      forall i | 0 <= i < |b| ensures b[i] !in cs {
        assert (a + b)[|a| + i] == b[i];
      }
    }
  }

  /** A scan for `cs` over `a + b` stops where `b` starts when `a` avoids `cs` and `b` opens with one. */
  lemma IndexOfAnyConcat(a: string, b: string, cs: set<char>)
    requires Avoids(a, cs)
    requires b == [] || b[0] in cs
    ensures IndexOfAny(a + b, cs) == |a|
  {
    IndexOfAnyAt(a + b, cs, |a|);
  }

  /** The last `c` of `a + [c] + b` is the one between them when `b` holds none. */
  lemma {:induction false} LastIndexOfConcat(a: string, c: char, b: string)
    requires Avoids(b, {c})
    ensures LastIndexOf(a + [c] + b, c) == |a|
    decreases |b|
  {
    var s := a + [c] + b;
    if b == [] {
      assert s == a + [c];
    } else {
      var init := b[..|b| - 1];
      assert s[|s| - 1] == b[|b| - 1] != c;
      assert s[..|s| - 1] == a + [c] + init;
      LastIndexOfConcat(a, c, init);
    }
  }

  /** Nothing in `s` is `c`. */
  lemma LastIndexOfAbsent(s: string, c: char)
    requires Avoids(s, {c})
    ensures LastIndexOf(s, c) == -1
  {
    LastIndexOfAt(s, c, -1);
  }

  /** `s.Split(sep)`: always at least one piece, none containing `sep`. */
  function SplitOn(s: string, sep: char): (parts: seq<string>)
    ensures |parts| >= 1
    ensures forall p :: p in parts ==> sep !in p
  {
    var i := IndexOfAny(s, {sep});
    if i == |s| then [s]
    else [s[..i]] + SplitOn(s[i + 1..], sep)
  }

  /** `string.Join(sep, parts)` */
  function Join(parts: seq<string>, sep: char): (s: string)
    requires |parts| >= 1
  {
    if |parts| == 1 then parts[0] else parts[0] + [sep] + Join(parts[1..], sep)
  }

  lemma {:induction false} JoinAvoids(parts: seq<string>, sep: char, cs: set<char>)
    requires |parts| >= 1 && sep !in cs
    requires forall i :: 0 <= i < |parts| ==> Avoids(parts[i], cs)
    ensures Avoids(Join(parts, sep), cs)
  {
    if |parts| > 1 {
      JoinAvoids(parts[1..], sep, cs);
      AvoidsConcat(parts[0], [sep], cs);
      AvoidsConcat(parts[0] + [sep], Join(parts[1..], sep), cs);
    }
  }

  lemma JoinStartsWith(parts: seq<string>, sep: char)
    requires |parts| >= 1
    ensures parts[0] <= Join(parts, sep)
  {
  }

  /** Splitting undoes joining, provided no piece holds the separator. */
  lemma {:induction false} SplitJoin(parts: seq<string>, sep: char)
    requires |parts| >= 1
    requires forall p :: p in parts ==> sep !in p
    ensures SplitOn(Join(parts, sep), sep) == parts
  {
    var s := Join(parts, sep);
    assert parts[0] in parts;
    if |parts| == 1 {
      IndexOfAnyAt(s, {sep}, |s|);
    } else {
      var rest := Join(parts[1..], sep);
      assert s == parts[0] + [sep] + rest;
      assert s[..|parts[0]|] == parts[0];
      IndexOfAnyAt(s, {sep}, |parts[0]|);
      assert s[|parts[0]| + 1..] == rest;
      SplitJoin(parts[1..], sep);
      assert [parts[0]] + parts[1..] == parts;
    }
  }

  // ---------------------------------------------------------------- decimal numbers

  predicate IsDigit(c: char) {
    '0' <= c <= '9'
  }

  predicate IsDigits(s: string) {
    forall i :: 0 <= i < |s| ==> IsDigit(s[i])
  }

  lemma DigitsAvoid(s: string, cs: set<char>)
    requires IsDigits(s)
    requires forall c :: c in cs ==> !IsDigit(c)
    ensures Avoids(s, cs)
  {
  }

  /** The value of a string of decimal digits, most significant first. */
  function DigitsValue(s: string): (n: nat)
    requires IsDigits(s)
  {
    if s == [] then 0
    else DigitsValue(s[..|s| - 1]) * 10 + (s[|s| - 1] as int - '0' as int)
  }

  /** `n.ToString()` for a non-negative integer. */
  function NatToString(n: nat): (s: string)
    ensures s != [] && IsDigits(s)
  {
    if n < 10 then [(n + '0' as int) as char]
    else NatToString(n / 10) + [(n % 10 + '0' as int) as char]
  }

  /** `i.ToString()` for any integer. */
  function IntToString(i: int): (s: string)
    ensures s != []
  {
    if i < 0 then "-" + NatToString(-i) else NatToString(i)
  }

  lemma {:induction false} DigitsValueOfNatToString(n: nat)
    ensures DigitsValue(NatToString(n)) == n
  {
    var s := NatToString(n);
    if n >= 10 {
      DigitsValueOfNatToString(n / 10);
      assert s[..|s| - 1] == NatToString(n / 10);
    }
  }

  // ---------------------------------------------------------------- hexadecimal digits

  predicate IsHexDigit(c: char) {
    '0' <= c <= '9' || 'a' <= c <= 'f' || 'A' <= c <= 'F'
  }

  function HexValue(c: char): (v: nat)
    requires IsHexDigit(c)
    ensures v < 16
  {
    if '0' <= c <= '9' then c as int - '0' as int
    else if 'a' <= c <= 'f' then c as int - 'a' as int + 10
    else c as int - 'A' as int + 10
  }

  function LowerHexDigit(v: nat): (c: char)
    requires v < 16
    ensures IsHexDigit(c) && HexValue(c) == v && LowerAscii(c) == c
  {
    if v < 10 then (v + '0' as int) as char else (v - 10 + 'a' as int) as char
  }

  function UpperHexDigit(v: nat): (c: char)
    requires v < 16
    ensures IsHexDigit(c) && HexValue(c) == v && LowerAscii(c) == LowerHexDigit(v)
  {
    if v < 10 then (v + '0' as int) as char else (v - 10 + 'A' as int) as char
  }

  /** Lower-casing a hex digit keeps its value and yields a lower-case hex digit. */
  lemma LowerHexDigitOf(c: char)
    requires IsHexDigit(c)
    ensures LowerAscii(c) == LowerHexDigit(HexValue(c))
  {
  }

  /** A character that lower-cases to a hex digit is itself a hex digit of that value. */
  lemma HexDigitOfLower(c: char, v: nat)
    requires v < 16 && LowerAscii(c) == LowerHexDigit(v)
    ensures IsHexDigit(c) && HexValue(c) == v
  {
  }
}
