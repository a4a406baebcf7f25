/** String helpers shared by the scripts: SQL `LIKE` patterns, decimal
    rendering of levels and the trimming/casing functions of PostgreSQL and
    Python that the label decoding uses. Strings are `seq<char>`; case
    folding covers ASCII only. */
module Text {

  /** `s LIKE 'p%'` */
  predicate StartsWith(s: string, p: string) {
    p <= s
  }

  /** `s LIKE '%sub%'` */
  predicate Contains(s: string, sub: string)
    decreases |s|
  {
    sub <= s || (|s| > 0 && Contains(s[1..], sub))
  }

  lemma {:induction false} ContainsAt(s: string, sub: string, i: nat)
    requires i + |sub| <= |s| && s[i..i + |sub|] == sub
    ensures Contains(s, sub)
    decreases i
  {
    if i == 0 {
      assert sub <= s;
    } else {
      assert s[1..][i - 1..i - 1 + |sub|] == s[i..i + |sub|];
      ContainsAt(s[1..], sub, i - 1);
    }
  }

  /** `s LIKE 'p%'` where `_` in `p` stands for any one character. */
  predicate LikePrefix(s: string, p: string) {
    |p| <= |s| && forall i :: 0 <= i < |p| ==> p[i] == '_' || s[i] == p[i]
  }

  /** `s LIKE '%p%'` where `_` in `p` stands for any one character. */
  predicate LikeContains(s: string, p: string)
    decreases |s|
  {
    LikePrefix(s, p) || (|s| > 0 && LikeContains(s[1..], p))
  }

  /** A pattern without `_` matches exactly where it occurs literally. */
  lemma {:induction false} LikeLiteral(s: string, p: string)
    requires forall i :: 0 <= i < |p| ==> p[i] != '_'
    ensures LikeContains(s, p) <==> Contains(s, p)
    decreases |s|
  {
    assert LikePrefix(s, p) <==> p <= s by {
      if LikePrefix(s, p) {
        assert p == s[..|p|];
      }
    }
    if |s| > 0 {
      LikeLiteral(s[1..], p);
    }
  }

  /** PostgreSQL `substring(s from n)`, counting from 1. */
  function SubstringFrom(s: string, n: nat): (r: string)
    requires n >= 1
    ensures n - 1 <= |s| ==> s == s[..n - 1] + r
    ensures |s| < n - 1 ==> r == ""
  {
    if |s| < n - 1 then "" else s[n - 1..]
  }

  /** The character of the decimal digit `d`. */
  function DigitChar(d: nat): (c: char)
    requires d < 10
    ensures '0' <= c <= '9' && c as int - '0' as int == d
  {
    ('0' as int + d) as char
  }

  /** Decimal rendering of a level, as Python's f-string prints an int. */
  function NatToString(n: nat): (r: string)
    ensures |r| > 0
    ensures forall i :: 0 <= i < |r| ==> '0' <= r[i] <= '9'
    decreases n
  {
    if n < 10 then [DigitChar(n)] else NatToString(n / 10) + [DigitChar(n % 10)]
  }

  /** The number a string of decimal digits denotes, read left to right. */
  function DecimalValue(s: string): nat
    requires forall i :: 0 <= i < |s| ==> '0' <= s[i] <= '9'
    decreases |s|
  {
    if s == [] then 0
    else DecimalValue(s[..|s| - 1]) * 10 + (s[|s| - 1] as int - '0' as int)
  }

  /** The rendering denotes `n` and has no leading zero, as Python's `str`
      of an int. */
  lemma {:induction false} NatToStringValue(n: nat)
    ensures DecimalValue(NatToString(n)) == n
    ensures |NatToString(n)| > 1 ==> NatToString(n)[0] != '0'
    decreases n
  {
    if n >= 10 {
      var pre := NatToString(n / 10);
      NatToStringValue(n / 10);
      assert (pre + [DigitChar(n % 10)])[..|pre|] == pre;
    }
  }

  /** Different levels are rendered differently. */
  lemma NatToStringInjective(a: nat, b: nat)
    ensures NatToString(a) == NatToString(b) ==> a == b
  {
    NatToStringValue(a);
    NatToStringValue(b);
  }

  predicate IsDigit(c: char) {
    '0' <= c <= '9'
  }

  predicate IsUpper(c: char) {
    'A' <= c <= 'Z'
  }

  /** ASCII `lower()`. */
  function LowerChar(c: char): (r: char)
    ensures IsUpper(c) ==> r as int == c as int + 32
    ensures !IsUpper(c) ==> r == c
  {
    if IsUpper(c) then (c as int + 32) as char else c
  }

  function Lower(s: string): (r: string)
    ensures |r| == |s|
    ensures forall i :: 0 <= i < |s| ==> r[i] == LowerChar(s[i])
    decreases |s|
  {
    if s == [] then [] else [LowerChar(s[0])] + Lower(s[1..])
  }

  /** PostgreSQL `rtrim(s, chars)`: drops the longest suffix made of `chars`. */
  function RTrim(s: string, chars: set<char>): (r: string)
    ensures r <= s
    ensures |r| == 0 || r[|r| - 1] !in chars
    ensures forall i :: |r| <= i < |s| ==> s[i] in chars
    decreases |s|
  {
    if |s| > 0 && s[|s| - 1] in chars then RTrim(s[..|s| - 1], chars) else s
  }

  /** PostgreSQL `ltrim(s, chars)`: drops the longest prefix made of `chars`. */
  function LTrim(s: string, chars: set<char>): (r: string)
    ensures |r| <= |s| && r == s[|s| - |r|..]
    ensures |r| == 0 || r[0] !in chars
    ensures forall i :: 0 <= i < |s| - |r| ==> s[i] in chars
    decreases |s|
  {
    if |s| > 0 && s[0] in chars then LTrim(s[1..], chars) else s
  }

  /** Trimming a tail made only of `chars` from a text that does not end in
      one gives the text back. */
  lemma {:induction false} RTrimAppend(a: string, b: string, chars: set<char>)
    requires forall i :: 0 <= i < |b| ==> b[i] in chars
    requires |a| == 0 || a[|a| - 1] !in chars
    ensures RTrim(a + b, chars) == a
    decreases |b|
  {
    if |b| == 0 {
      assert a + b == a;
    } else {
      assert (a + b)[..|a + b| - 1] == a + b[..|b| - 1];
      RTrimAppend(a, b[..|b| - 1], chars);
    }
  }

  /** Trimming a head made only of `chars` from a text that does not start
      with one gives the text back. */
  lemma {:induction false} LTrimAppend(a: string, b: string, chars: set<char>)
    requires forall i :: 0 <= i < |a| ==> a[i] in chars
    requires |b| == 0 || b[0] !in chars
    ensures LTrim(a + b, chars) == b
    decreases |a|
  {
    if |a| == 0 {
      assert a + b == b;
    } else {
      assert (a + b)[1..] == a[1..] + b;
      LTrimAppend(a[1..], b, chars);
    }
  }

  /** The characters Python's `str.rstrip()` removes: those for which
      `str.isspace()` holds. */
  const Whitespace: set<char> := {
    '\t', '\n', '\U{000B}', '\U{000C}', '\r', '\U{001C}', '\U{001D}', '\U{001E}', '\U{001F}', ' ',
    '\U{0085}', '\U{00A0}', '\U{1680}', '\U{2000}', '\U{2001}', '\U{2002}', '\U{2003}', '\U{2004}',
    '\U{2005}', '\U{2006}', '\U{2007}', '\U{2008}', '\U{2009}', '\U{200A}', '\U{2028}', '\U{2029}',
    '\U{202F}', '\U{205F}', '\U{3000}'}

  /** `s.rstrip()` */
  function RStrip(s: string): (r: string)
    ensures r <= s
    ensures forall i :: |r| <= i < |s| ==> s[i] in Whitespace
    ensures |r| == 0 || r[|r| - 1] !in Whitespace
  {
    RTrim(s, Whitespace)
  }
}
