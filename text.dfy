/**
 * String operations the portal relies on, written out over `seq<char>`:
 * decimal printing and parsing, zero padding, ASCII case mapping, prefix and
 * substring tests, Python's `str.replace(old, new, 1)`, `str.split`,
 * `str.strip()` and JavaScript's `String.prototype.trim()`.
 */
module Text {

  import Lists

  // ---------------------------------------------------------------------
  // Decimal digits
  // ---------------------------------------------------------------------

  /** An ASCII decimal digit (JavaScript's regular-expression `\d`). */
  predicate IsDigit(c: char) {
    '0' <= c <= '9'
  }

  /** Every character is a digit; no requirement that `s` is non-empty. */
  predicate AllDigits(s: string) {
    forall i :: 0 <= i < |s| ==> IsDigit(s[i])
  }

  /** Python's `str.isdigit()` restricted to ASCII: non-empty and all digits. */
  predicate IsDigitString(s: string) {
    |s| > 0 && AllDigits(s)
  }

  function DigitValue(c: char): (d: nat)
    requires IsDigit(c)
    ensures d < 10
  {
    (c as int) - ('0' as int)
  }

  function DigitChar(d: nat): (c: char)
    requires d < 10
    ensures IsDigit(c) && DigitValue(c) == d
  {
    ((('0' as int) + d) as char)
  }

  /** Python's `int(s)` for a string of ASCII digits (leading zeros allowed). */
  function ParseNat(s: string): nat
    requires AllDigits(s)
    decreases |s|
  {
    if s == [] then 0 else ParseNat(s[..|s| - 1]) * 10 + DigitValue(s[|s| - 1])
  }

  /** The decimal representation of `n`, without leading zeros. */
  function Decimal(n: nat): (s: string)
    ensures IsDigitString(s)
    decreases n
  {
    if n < 10 then [DigitChar(n)] else Decimal(n / 10) + [DigitChar(n % 10)]
  }

  /** Python's `str(i)` for an integer. */
  function IntToString(i: int): (s: string)
    ensures |s| > 0
  {
    if i < 0 then "-" + Decimal(-i) else Decimal(i)
  }

  /** Left-pads `s` with `'0'` up to `width` characters (Python's `{n:0width d}`). */
  function ZeroPad(s: string, width: nat): (r: string)
    ensures |r| == if |s| >= width then |s| else width
    ensures r[|r| - |s|..] == s
    ensures forall i :: 0 <= i < |r| - |s| ==> r[i] == '0'
    decreases width - |s|
  {
    if |s| >= width then s else ZeroPad("0" + s, width)
  }

  /** Parsing undoes printing. */
  lemma {:induction false} ParseDecimal(n: nat)
    ensures ParseNat(Decimal(n)) == n
    decreases n
  {
    if n >= 10 {
      var s := Decimal(n);
      assert s[..|s| - 1] == Decimal(n / 10);
      ParseDecimal(n / 10);
    }
  }

  /** A leading zero does not change the parsed value. */
  lemma {:induction false} ParseLeadingZero(s: string)
    requires AllDigits(s)
    ensures AllDigits("0" + s) && ParseNat("0" + s) == ParseNat(s)
    decreases |s|
  {
    var t := "0" + s;
    assert AllDigits(t) by {
      forall i | 0 <= i < |t| ensures IsDigit(t[i]) {
        if i > 0 { assert t[i] == s[i - 1]; }
      }
    }
    if s != [] {
      assert t[..|t| - 1] == "0" + s[..|s| - 1];
      ParseLeadingZero(s[..|s| - 1]);
    }
  }

  /** Zero padding keeps a digit string's value. */
  lemma {:induction false} ParseZeroPad(s: string, width: nat)
    requires AllDigits(s)
    ensures AllDigits(ZeroPad(s, width)) && ParseNat(ZeroPad(s, width)) == ParseNat(s)
    decreases width - |s|
  {
    if |s| < width {
      ParseLeadingZero(s);
      ParseZeroPad("0" + s, width);
    }
  }

  /** Distinct numbers print differently. */
  lemma DecimalInjective(m: nat, n: nat)
    ensures Decimal(m) == Decimal(n) <==> m == n
  {
    ParseDecimal(m);
    ParseDecimal(n);
  }

  /** The printed form starts with a minus sign exactly for negative integers. */
  lemma IntToStringSign(i: int)
    ensures (IntToString(i)[0] == '-') == (i < 0)
  {
    if i >= 0 {
      assert IsDigit(Decimal(i)[0]);
    }
  }

  /** Distinct integers print differently (Python's `str` on `int`). */
  lemma IntToStringInjective(a: int, b: int)
    ensures IntToString(a) == IntToString(b) <==> a == b
  {
    IntToStringSign(a);
    IntToStringSign(b);
    if IntToString(a) == IntToString(b) {
      if a < 0 {
        assert IntToString(a)[1..] == Decimal(-a);
        assert IntToString(b)[1..] == Decimal(-b);
        DecimalInjective(-a, -b);
      } else {
        DecimalInjective(a, b);
      }
    }
  }

  // ---------------------------------------------------------------------
  // Case mapping (ASCII letters only)
  // ---------------------------------------------------------------------

  function LowerChar(c: char): char {
    if 'A' <= c <= 'Z' then ((c as int) + 32) as char else c
  }

  function UpperChar(c: char): char {
    if 'a' <= c <= 'z' then ((c as int) - 32) as char else c
  }

  /** `str.lower()` / `String.prototype.toLowerCase()` on ASCII letters. */
  function Lower(s: string): (r: string)
    ensures |r| == |s| && forall i :: 0 <= i < |s| ==> r[i] == LowerChar(s[i])
  {
    seq(|s|, i requires 0 <= i < |s| => LowerChar(s[i]))
  }

  /** `str.upper()` / `String.prototype.toUpperCase()` on ASCII letters. */
  function Upper(s: string): (r: string)
    ensures |r| == |s| && forall i :: 0 <= i < |s| ==> r[i] == UpperChar(s[i])
  {
    seq(|s|, i requires 0 <= i < |s| => UpperChar(s[i]))
  }

  lemma UpperIdempotent(s: string)
    ensures Upper(Upper(s)) == Upper(s)
  {
  }

  /** A string with no upper-case ASCII letter. */
  predicate IsLower(s: string) {
    forall i :: 0 <= i < |s| ==> !('A' <= s[i] <= 'Z')
  }

  lemma LowerFacts(s: string)
    ensures IsLower(Lower(s))
    ensures Lower(Lower(s)) == Lower(s)
    ensures Lower(Upper(s)) == Lower(s)
    ensures IsLower(s) ==> Lower(s) == s
  {
  }

  // ---------------------------------------------------------------------
  // Prefixes, substrings, replacement
  // ---------------------------------------------------------------------

  /** Python's `str.startswith` / JavaScript's `String.prototype.startsWith`. */
  predicate StartsWith(s: string, prefix: string) {
    |prefix| <= |s| && s[..|prefix|] == prefix
  }

  /** Python's `sub in s`. */
  predicate Contains(s: string, sub: string)
    decreases |s|
  {
    StartsWith(s, sub) || (|s| > 0 && Contains(s[1..], sub))
  }

  /** `Contains` holds exactly when `sub` occurs at some position of `s`. */
  lemma {:induction false} ContainsAt(s: string, sub: string, k: nat)
    requires k + |sub| <= |s| && s[k..k + |sub|] == sub
    ensures Contains(s, sub)
    decreases k
  {
    if k > 0 {
      assert s[1..][k - 1..k - 1 + |sub|] == s[k..k + |sub|];
      ContainsAt(s[1..], sub, k - 1);
    }
  }

  /** Python's `s.replace(pattern, replacement, 1)`: only the first occurrence is replaced. */
  function ReplaceFirst(s: string, pattern: string, replacement: string): string
    decreases |s|
  {
    if StartsWith(s, pattern) then replacement + s[|pattern|..]
    else if s == [] then []
    else [s[0]] + ReplaceFirst(s[1..], pattern, replacement)
  }

  // ---------------------------------------------------------------------
  // Whitespace trimming
  // ---------------------------------------------------------------------

  /** The characters Python's `str.isspace()` accepts. */
  predicate IsPySpace(c: char) {
    var n := c as int;
    (0x09 <= n <= 0x0D) || (0x1C <= n <= 0x20) || n == 0x85 || n == 0xA0 || n == 0x1680
    || (0x2000 <= n <= 0x200A) || n == 0x2028 || n == 0x2029 || n == 0x202F || n == 0x205F
    || n == 0x3000
  }

  /** The characters `String.prototype.trim()` removes (WhiteSpace and LineTerminator). */
  predicate IsJsSpace(c: char) {
    var n := c as int;
    (0x09 <= n <= 0x0D) || n == 0x20 || n == 0xA0 || n == 0x1680 || (0x2000 <= n <= 0x200A)
    || n == 0x2028 || n == 0x2029 || n == 0x202F || n == 0x205F || n == 0x3000 || n == 0xFEFF
  }

  /** Drops leading characters of the class `ws`. */
  function TrimStart(s: string, ws: char -> bool): (r: string)
    ensures |r| <= |s| && r == s[|s| - |r|..]
    ensures forall k :: 0 <= k < |s| - |r| ==> ws(s[k])
    ensures r == [] || !ws(r[0])
    decreases |s|
  {
    if |s| > 0 && ws(s[0]) then TrimStart(s[1..], ws) else s
  }

  /** Drops trailing characters of the class `ws`. */
  function TrimEnd(s: string, ws: char -> bool): (r: string)
    ensures |r| <= |s| && r == s[..|r|]
    ensures forall k :: |r| <= k < |s| ==> ws(s[k])
    ensures r == [] || !ws(r[|r| - 1])
    decreases |s|
  {
    if |s| > 0 && ws(s[|s| - 1]) then TrimEnd(s[..|s| - 1], ws) else s
  }

  /** Drops characters of the class `ws` from both ends. */
  function Trim(s: string, ws: char -> bool): (r: string)
    ensures r == [] || (!ws(r[0]) && !ws(r[|r| - 1]))
  {
    TrimEnd(TrimStart(s, ws), ws)
  }

  /** A string whose ends are not whitespace is its own trim. */
  lemma TrimOfTrimmed(s: string, ws: char -> bool)
    requires s == [] || (!ws(s[0]) && !ws(s[|s| - 1]))
    ensures Trim(s, ws) == s
  {
  }

  /** Trimming is idempotent. */
  lemma TrimIdempotent(s: string, ws: char -> bool)
    ensures Trim(Trim(s, ws), ws) == Trim(s, ws)
  {
    TrimOfTrimmed(Trim(s, ws), ws);
  }

  /** Python's `s.strip()`. */
  function PyStrip(s: string): string {
    Trim(s, IsPySpace)
  }

  /** JavaScript's `s.trim()`. */
  function JsTrim(s: string): string {
    Trim(s, IsJsSpace)
  }

  // ---------------------------------------------------------------------
  // Splitting
  // ---------------------------------------------------------------------

  /** Python's `s.split(sep, maxsplit)`: at most `maxsplit` splits, left to right. */
  function SplitN(s: string, sep: char, maxsplit: nat): (parts: seq<string>)
    ensures 1 <= |parts| <= maxsplit + 1
    ensures forall i :: 0 <= i < |parts| - 1 ==> sep !in parts[i]
    decreases |s|
  {
    if maxsplit == 0 || sep !in s then [s]
    else
      var k := Lists.IndexOf(s, sep);
      [s[..k]] + SplitN(s[k + 1..], sep, maxsplit - 1)
  }

  /** Python's `s.split(sep)`: every separator splits. */
  function Split(s: string, sep: char): (parts: seq<string>)
    ensures |parts| >= 1
    ensures forall i :: 0 <= i < |parts| ==> sep !in parts[i]
    decreases |s|
  {
    if sep !in s then [s]
    else
      var k := Lists.IndexOf(s, sep);
      [s[..k]] + Split(s[k + 1..], sep)
  }

  /** Python's `sep.join(parts)`. */
  function Join(parts: seq<string>, sep: char): string
    requires |parts| >= 1
  {
    if |parts| == 1 then parts[0] else parts[0] + [sep] + Join(parts[1..], sep)
  }

  /** Joining pieces that hold no separator can be undone by splitting. */
  lemma {:induction false} SplitJoin(parts: seq<string>, sep: char)
    requires |parts| >= 1 && forall i :: 0 <= i < |parts| ==> sep !in parts[i]
    ensures Split(Join(parts, sep), sep) == parts
    decreases |parts|
  {
    if |parts| > 1 {
      var head, rest := parts[0], parts[1..];
      assert forall i :: 0 <= i < |rest| ==> rest[i] == parts[i + 1];
      SplitJoin(rest, sep);
      var joined := Join(rest, sep);
      assert Join(parts, sep) == head + [sep] + joined;
      SplitCons(head, sep, joined);
      assert parts == [head] + rest;
    }
  }

  /** Splitting loses nothing: joining the pieces gives the input back. */
  lemma {:induction false} JoinSplit(s: string, sep: char)
    ensures Join(Split(s, sep), sep) == s
    decreases |s|
  {
    if sep in s {
      var k := Lists.IndexOf(s, sep);
      JoinSplit(s[k + 1..], sep);
      Lists.Around(s, k);
    }
  }

  /** The last piece follows the last separator. */
  lemma {:induction false} JoinLast(parts: seq<string>, sep: char)
    requires |parts| >= 2
    ensures Join(parts, sep) == Join(parts[..|parts| - 1], sep) + [sep] + parts[|parts| - 1]
    decreases |parts|
  {
    var init := parts[..|parts| - 1];
    if |parts| == 2 {
      assert parts[1..] == [parts[1]];
      assert init == [parts[0]];
    } else {
      JoinLast(parts[1..], sep);
      assert parts[1..][..|parts| - 2] == init[1..];
      assert init[0] == parts[0];
    }
  }

  /** After a separator, the last piece is what follows the last separator. */
  lemma LastPiece(s: string, sep: char)
    requires sep in s
    ensures exists front :: s == front + [sep] + Split(s, sep)[|Split(s, sep)| - 1]
  {
    var parts := Split(s, sep);
    SplitSeveral(s, sep);
    var n: nat := |parts| - 1;
    JoinSplit(s, sep);
    JoinLast(parts, sep);
    assert s == Join(parts[..n], sep) + [sep] + parts[n];
  }

  /** Splitting at a separator that occurs gives at least two pieces. */
  lemma SplitSeveral(s: string, sep: char)
    requires sep in s
    ensures |Split(s, sep)| >= 2
  {
  }

  /** Joining a list with a head element puts one separator after the head. */
  lemma JoinCons(head: string, rest: seq<string>, sep: char)
    requires |rest| >= 1
    ensures Join([head] + rest, sep) == head + [sep] + Join(rest, sep)
  {
    assert ([head] + rest)[1..] == rest;
  }

  /** The same holds for a bounded split. */
  lemma {:induction false} JoinSplitN(s: string, sep: char, maxsplit: nat)
    ensures Join(SplitN(s, sep, maxsplit), sep) == s
    decreases |s|
  {
    if maxsplit > 0 && sep in s {
      var k := Lists.IndexOf(s, sep);
      var head, tail := s[..k], s[k + 1..];
      var m: nat := maxsplit - 1;
      JoinSplitN(tail, sep, m);
      JoinSplitNStep(head, tail, sep, m);
      Lists.Around(s, k);
    } else {
      assert SplitN(s, sep, maxsplit) == [s];
    }
  }

  /** One step of `JoinSplitN`: the first piece and the rest rejoin around the separator. */
  lemma JoinSplitNStep(head: string, tail: string, sep: char, m: nat)
    requires sep !in head
    requires Join(SplitN(tail, sep, m), sep) == tail
    ensures Join(SplitN(head + [sep] + tail, sep, m + 1), sep) == head + [sep] + tail
  {
    SplitNCons(head, sep, tail, m + 1);
    JoinCons(head, SplitN(tail, sep, m), sep);
  }

  /** Splitting `a + sep + b` where `a` has no separator gives `a` first. */
  lemma SplitCons(a: string, sep: char, b: string)
    requires sep !in a
    ensures Split(a + [sep] + b, sep) == [a] + Split(b, sep)
  {
    var s := a + [sep] + b;
    assert s[..|a|] == a;
    assert s[|a|] == sep;
    var k := Lists.IndexOf(s, sep);
    assert k == |a|;
    assert s[k + 1..] == b;
  }

  /** The same for a bounded split with splits left. */
  lemma SplitNCons(a: string, sep: char, b: string, maxsplit: nat)
    requires sep !in a && maxsplit > 0
    ensures SplitN(a + [sep] + b, sep, maxsplit) == [a] + SplitN(b, sep, maxsplit - 1)
  {
    var s := a + [sep] + b;
    FirstSeparator(a, sep, b);
    assert s[..|a|] == a;
    assert s[|a| + 1..] == b;
  }

  /** The first separator marks where `a + sep + b` splits. */
  lemma FirstSeparator(a: string, sep: char, b: string)
    requires sep !in a
    ensures sep in a + [sep] + b && Lists.IndexOf(a + [sep] + b, sep) == |a|
  {
    var s := a + [sep] + b;
    assert s[..|a|] == a;
    assert s[|a|] == sep;
  }

  /** Joining two pieces with a separator the first piece lacks can be undone. */
  lemma SeparatedUnique(a: string, b: string, x: string, y: string, sep: char)
    requires sep !in a && sep !in x
    ensures a + [sep] + b == x + [sep] + y <==> a == x && b == y
  {
    if a + [sep] + b == x + [sep] + y {
      var s := a + [sep] + b;
      FirstSeparator(a, sep, b);
      FirstSeparator(x, sep, y);
      assert a == s[..|a|] && x == s[..|x|];
      assert b == s[|a| + 1..] && y == s[|x| + 1..];
    }
  }
}
