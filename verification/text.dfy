/** String primitives with Python's meaning, restricted to ASCII where Python would
    consult Unicode tables (`strip`, `lower`, `upper`, `isdigit`, the regex class `\s`). */
module Text {

  /** `str.isspace()` on ASCII: TAB, LF, VT, FF, CR, the separators 0x1C-0x1F and SPACE.
      The same set is what the regex class `\s` matches. */
  predicate IsSpace(c: char) {
    (9 <= c as int <= 13) || (28 <= c as int <= 32)
  }

  predicate IsDigit(c: char) {
    '0' <= c <= '9'
  }

  function LowerChar(c: char): char {
    if 'A' <= c <= 'Z' then (c as int + 32) as char else c
  }

  function UpperChar(c: char): char {
    if 'a' <= c <= 'z' then (c as int - 32) as char else c
  }

  /** `s.lower()` on ASCII letters. */
  function Lower(s: string): (r: string)
    ensures |r| == |s|
  {
    seq(|s|, i requires 0 <= i < |s| => LowerChar(s[i]))
  }

  /** `s.upper()` on ASCII letters. */
  function Upper(s: string): (r: string)
    ensures |r| == |s|
  {
    seq(|s|, i requires 0 <= i < |s| => UpperChar(s[i]))
  }

  lemma LowerIdempotent(s: string)
    ensures Lower(Lower(s)) == Lower(s)
  {
  }

  lemma LowerAppend(a: string, b: string)
    ensures Lower(a + b) == Lower(a) + Lower(b)
  {
  }

  /** `s.lstrip()`: drops the leading whitespace. */
  function LStrip(s: string): (r: string)
    ensures |r| <= |s|
    decreases |s|
  {
    if |s| > 0 && IsSpace(s[0]) then LStrip(s[1..]) else s
  }

  /** `s.rstrip()`: drops the trailing whitespace. */
  function RStrip(s: string): (r: string)
    ensures |r| <= |s|
    decreases |s|
  {
    if |s| > 0 && IsSpace(s[|s| - 1]) then RStrip(s[..|s| - 1]) else s
  }

  /** `s.strip()`. */
  function Strip(s: string): (r: string)
    ensures |r| <= |s|
  {
    RStrip(LStrip(s))
  }

  /** The number of leading whitespace characters `strip` removes. */
  function StripStart(s: string): nat {
    |s| - |LStrip(s)|
  }

  /** `lstrip` drops exactly the leading run of whitespace. */
  lemma {:induction false} LStripSpec(s: string)
    ensures LStrip(s) == s[|s| - |LStrip(s)|..]
    ensures |LStrip(s)| > 0 ==> !IsSpace(LStrip(s)[0])
    ensures forall i :: 0 <= i < |s| - |LStrip(s)| ==> IsSpace(s[i])
    decreases |s|
  {
    if |s| > 0 && IsSpace(s[0]) {
      LStripSpec(s[1..]);
    }
  }

  /** `rstrip` drops exactly the trailing run of whitespace. */
  lemma {:induction false} RStripSpec(s: string)
    ensures RStrip(s) == s[..|RStrip(s)|]
    ensures |RStrip(s)| > 0 ==> !IsSpace(RStrip(s)[|RStrip(s)| - 1])
    ensures forall i :: |RStrip(s)| <= i < |s| ==> IsSpace(s[i])
    decreases |s|
  {
    if |s| > 0 && IsSpace(s[|s| - 1]) {
      RStripSpec(s[..|s| - 1]);
    }
  }

  /** `strip` gives the longest infix of `s` that neither starts nor ends with
      whitespace, everything cut off on either side being whitespace. */
  lemma StripSpec(s: string)
    ensures var r := Strip(s);
            && (|r| > 0 ==> !IsSpace(r[0]) && !IsSpace(r[|r| - 1]))
            && StripStart(s) + |r| <= |s| && r == s[StripStart(s)..StripStart(s) + |r|]
            && (forall i :: 0 <= i < StripStart(s) ==> IsSpace(s[i]))
            && (forall i :: StripStart(s) + |r| <= i < |s| ==> IsSpace(s[i]))
  {
    LStripSpec(s);
    RStripSpec(LStrip(s));
    var l := LStrip(s);
    var r := Strip(s);
    if |r| > 0 {
      assert r[0] == l[0];
    }
    forall i | StripStart(s) + |r| <= i < |s| ensures IsSpace(s[i]) {
      assert s[i] == l[i - StripStart(s)];
    }
  }

  /** Stripping a string that has no outer whitespace returns it unchanged. */
  lemma StripUnchanged(s: string)
    requires |s| > 0 ==> !IsSpace(s[0]) && !IsSpace(s[|s| - 1])
    ensures Strip(s) == s
  {
  }

  lemma StripIdempotent(s: string)
    ensures Strip(Strip(s)) == Strip(s)
  {
    StripSpec(s);
    StripUnchanged(Strip(s));
  }

  /** A string made only of whitespace strips to the empty string. */
  lemma {:induction false} StripAllSpace(s: string)
    requires forall i :: 0 <= i < |s| ==> IsSpace(s[i])
    ensures Strip(s) == ""
  {
    if |s| > 0 {
      assert IsSpace(s[0]);
      assert LStrip(s) == LStrip(s[1..]);
      StripAllSpace(s[1..]);
    }
  }

  lemma {:induction false} LStripLower(s: string)
    ensures LStrip(Lower(s)) == Lower(LStrip(s))
    decreases |s|
  {
    if |s| > 0 && IsSpace(s[0]) {
      assert Lower(s)[1..] == Lower(s[1..]);
      LStripLower(s[1..]);
    }
  }

  lemma {:induction false} RStripLower(s: string)
    ensures RStrip(Lower(s)) == Lower(RStrip(s))
    decreases |s|
  {
    if |s| > 0 && IsSpace(s[|s| - 1]) {
      assert Lower(s)[..|s| - 1] == Lower(s[..|s| - 1]);
      RStripLower(s[..|s| - 1]);
    }
  }

  /** Lower-casing and stripping commute, since letters are never whitespace. */
  lemma StripLower(s: string)
    ensures Strip(Lower(s)) == Lower(Strip(s))
  {
    LStripLower(s);
    RStripLower(LStrip(s));
  }

  /** `s.isdigit()` on ASCII: non-empty and every character a decimal digit. */
  predicate IsDigits(s: string) {
    |s| > 0 && forall i :: 0 <= i < |s| ==> IsDigit(s[i])
  }

  /** `int(s)` for a string of ASCII digits (leading zeros allowed). */
  function DigitsValue(s: string): nat
    requires forall i :: 0 <= i < |s| ==> IsDigit(s[i])
    decreases |s|
  {
    if |s| == 0 then 0
    else
      assert IsDigit(s[|s| - 1]);
      DigitsValue(s[..|s| - 1]) * 10 + (s[|s| - 1] as int - '0' as int)
  }

  function DigitChar(d: nat): char
    requires d < 10
  {
    ('0' as int + d) as char
  }

  /** `str(n)` for a natural number. */
  function NatToDecimal(n: nat): string
    decreases n
  {
    if n < 10 then [DigitChar(n)] else NatToDecimal(n / 10) + [DigitChar(n % 10)]
  }

  /** The rendering is the shortest string of digits that `int()` reads back as `n`. */
  lemma {:induction false} NatToDecimalSpec(n: nat)
    ensures IsDigits(NatToDecimal(n))
    ensures DigitsValue(NatToDecimal(n)) == n
    ensures |NatToDecimal(n)| == 1 || NatToDecimal(n)[0] != '0'
    decreases n
  {
    if n >= 10 {
      NatToDecimalSpec(n / 10);
      var prefix := NatToDecimal(n / 10);
      var r := NatToDecimal(n);
      assert r[..|r| - 1] == prefix;
    }
  }

  /** Different numbers render differently. */
  lemma NatToDecimalInjective(m: nat, n: nat)
    requires NatToDecimal(m) == NatToDecimal(n)
    ensures m == n
  {
    NatToDecimalSpec(m);
    NatToDecimalSpec(n);
  }

  /** `str(i)` for any integer. */
  function IntToString(i: int): (r: string)
    ensures |r| > 0
  {
    if i < 0 then "-" + NatToDecimal(-i) else NatToDecimal(i)
  }

  /** `s.startswith(p)`. */
  predicate StartsWith(s: string, p: string) {
    |p| <= |s| && s[..|p|] == p
  }

  /** `sub in s`. */
  predicate IsInfix(sub: string, s: string)
    decreases |s|
  {
    StartsWith(s, sub) || (|s| > 0 && IsInfix(sub, s[1..]))
  }

  /** `sep.join(parts)`. */
  function Join(parts: seq<string>, sep: string): string
    decreases |parts|
  {
    if |parts| == 0 then ""
    else if |parts| == 1 then parts[0]
    else parts[0] + sep + Join(parts[1..], sep)
  }

  /** `s.split(sep)` for a one-character separator: never empty, no part holds the
      separator, and joining the parts back with the separator gives `s`. */
  function Split(s: string, sep: char): (parts: seq<string>)
    ensures |parts| >= 1
    ensures forall i :: 0 <= i < |parts| ==> sep !in parts[i]
    ensures Join(parts, [sep]) == s
    decreases |s|
  {
    if |s| == 0 then [""]
    else
      var rest := Split(s[1..], sep);
      if s[0] == sep then
        var parts := [""] + rest;
        assert parts[1..] == rest;
        parts
      else
        var parts := [[s[0]] + rest[0]] + rest[1..];
        assert |rest| > 1 ==> Join(rest, [sep]) == rest[0] + [sep] + Join(rest[1..], [sep]);
        assert parts[1..] == rest[1..];
        parts
  }

  /** Python's `s.replace(pat, rep)`: non-overlapping occurrences of `pat`, found left
      to right, are replaced by `rep`; text without an occurrence is copied. */
  function Replace(s: string, pat: string, rep: string): (r: string)
    requires |pat| > 0
    ensures !IsInfix(pat, s) ==> r == s
    ensures pat == rep ==> r == s
    decreases |s|
  {
    if |s| == 0 then ""
    else if StartsWith(s, pat) then
      rep + Replace(s[|pat|..], pat, rep)
    else
      [s[0]] + Replace(s[1..], pat, rep)
  }

  /** Text not starting with the pattern's first character keeps that character. */
  lemma ReplaceSkip(s: string, pat: string, rep: string)
    requires |pat| > 0 && |s| > 0 && s[0] != pat[0]
    ensures Replace(s, pat, rep) == [s[0]] + Replace(s[1..], pat, rep)
  {
  }

  /** An occurrence at the front is replaced. */
  lemma ReplaceHit(s: string, pat: string, rep: string)
    requires |pat| > 0 && StartsWith(s, pat)
    ensures Replace(s, pat, rep) == rep + Replace(s[|pat|..], pat, rep)
  {
  }

  /** A prefix without the pattern's first character is copied. */
  lemma {:induction false} ReplaceKeepsPrefix(a: string, t: string, pat: string, rep: string)
    requires |pat| > 0 && pat[0] !in a
    ensures Replace(a + t, pat, rep) == a + Replace(t, pat, rep)
    decreases |a|
  {
    if |a| > 0 {
      ReplaceSkip(a + t, pat, rep);
      assert (a + t)[1..] == a[1..] + t;
      ReplaceKeepsPrefix(a[1..], t, pat, rep);
      assert a == [a[0]] + a[1..];
    } else {
      assert a + t == t;
    }
  }

  /** `s.split(pat)` for a non-empty separator: the text between the non-overlapping
      occurrences of `pat`, found left to right. */
  function SplitOn(s: string, pat: string): (parts: seq<string>)
    requires |pat| > 0
    ensures |parts| >= 1
    decreases |s|
  {
    if |s| == 0 then [""]
    else if StartsWith(s, pat) then [""] + SplitOn(s[|pat|..], pat)
    else
      var rest := SplitOn(s[1..], pat);
      [[s[0]] + rest[0]] + rest[1..]
  }

  /** Joining the parts of a split back with the separator gives the text. */
  lemma {:induction false} SplitOnJoin(s: string, pat: string)
    requires |pat| > 0
    ensures Join(SplitOn(s, pat), pat) == s
    decreases |s|
  {
    ReplaceIsJoin(s, pat, pat);
  }

  /** No part of a split holds an occurrence of the separator. */
  lemma {:induction false} SplitOnPartsFree(s: string, pat: string)
    requires |pat| > 0
    ensures forall k :: 0 <= k < |SplitOn(s, pat)| ==> !IsInfix(pat, SplitOn(s, pat)[k])
    decreases |s|
  {
    if |s| == 0 {
      ShortNotInfix(pat, "");
    } else if StartsWith(s, pat) {
      SplitOnPartsFree(s[|pat|..], pat);
      ShortNotInfix(pat, "");
      assert SplitOn(s, pat) == [""] + SplitOn(s[|pat|..], pat);
    } else {
      var rest := SplitOn(s[1..], pat);
      SplitOnPartsFree(s[1..], pat);
      SplitOnJoin(s[1..], pat);
      JoinStartsWith(rest, pat);
      assert StartsWith(s, [s[0]] + rest[0]) by {
        assert s == [s[0]] + s[1..];
      }
      ConsNotInfix(s[0], rest[0], s, pat);
      assert SplitOn(s, pat) == [[s[0]] + rest[0]] + rest[1..];
    }
  }

  /** The split is the leftmost one: no part but the last, followed by the separator,
      holds an occurrence of the separator that starts inside the part. */
  lemma {:induction false} SplitOnLeftmost(s: string, pat: string)
    requires |pat| > 0
    ensures forall k :: 0 <= k < |SplitOn(s, pat)| - 1 ==> !IsInfix(pat, SplitOn(s, pat)[k] + pat[..|pat| - 1])
    decreases |s|
  {
    if |s| > 0 && StartsWith(s, pat) {
      SplitOnLeftmost(s[|pat|..], pat);
      ShortNotInfix(pat, "" + pat[..|pat| - 1]);
      assert SplitOn(s, pat) == [""] + SplitOn(s[|pat|..], pat);
    } else if |s| > 0 {
      var rest := SplitOn(s[1..], pat);
      SplitOnLeftmost(s[1..], pat);
      assert SplitOn(s, pat) == [[s[0]] + rest[0]] + rest[1..];
      if |rest| > 1 {
        var x := rest[0] + pat[..|pat| - 1];
        SplitOnJoin(s[1..], pat);
        JoinHead(rest, pat);
        assert StartsWith(s, [s[0]] + x) by {
          assert s == [s[0]] + (rest[0] + pat + Join(rest[1..], pat));
          assert pat == pat[..|pat| - 1] + [pat[|pat| - 1]];
        }
        ConsNotInfix(s[0], x, s, pat);
        assert [s[0]] + x == ([s[0]] + rest[0]) + pat[..|pat| - 1];
      }
    }
  }

  /** A prefix of `s`, where `pat` does not start, holds `pat` only in its tail. */
  lemma ConsNotInfix(c: char, x: string, s: string, pat: string)
    requires StartsWith(s, [c] + x) && !StartsWith(s, pat) && !IsInfix(pat, x)
    ensures !IsInfix(pat, [c] + x)
  {
    var t := [c] + x;
    assert t[1..] == x;
  }

  /** A join begins with its first part. */
  lemma JoinStartsWith(parts: seq<string>, sep: string)
    requires |parts| >= 1
    ensures StartsWith(Join(parts, sep), parts[0])
  {
    JoinHead(parts, sep);
    if |parts| > 1 {
      assert (parts[0] + sep + Join(parts[1..], sep))[..|parts[0]|] == parts[0];
    }
  }

  /** A separated join begins with its first part and the separator. */
  lemma JoinHead(parts: seq<string>, sep: string)
    requires |parts| >= 1
    ensures |parts| == 1 ==> Join(parts, sep) == parts[0]
    ensures |parts| > 1 ==> Join(parts, sep) == parts[0] + sep + Join(parts[1..], sep)
  {
  }

  /** A text shorter than `pat` holds no occurrence of it. */
  lemma {:induction false} ShortNotInfix(pat: string, s: string)
    requires |s| < |pat|
    ensures !IsInfix(pat, s)
    decreases |s|
  {
    if |s| > 0 {
      ShortNotInfix(pat, s[1..]);
    }
  }

  /** `s.replace(pat, rep)` is `rep.join(s.split(pat))`. */
  lemma {:induction false} ReplaceIsJoin(s: string, pat: string, rep: string)
    requires |pat| > 0
    ensures Replace(s, pat, rep) == Join(SplitOn(s, pat), rep)
    decreases |s|
  {
    if |s| > 0 {
      if StartsWith(s, pat) {
        var rest := SplitOn(s[|pat|..], pat);
        ReplaceIsJoin(s[|pat|..], pat, rep);
        assert ([""] + rest)[1..] == rest;
      } else {
        var rest := SplitOn(s[1..], pat);
        ReplaceIsJoin(s[1..], pat, rep);
        JoinHead(rest, rep);
        var parts := [[s[0]] + rest[0]] + rest[1..];
        JoinHead(parts, rep);
        assert parts[1..] == rest[1..];
      }
    }
  }

  /** Python's slice-bound normalisation for a sequence of length `n`. */
  function SliceIndex(n: nat, i: int): (k: nat)
    ensures k <= n
  {
    if i < 0 then (if i + n < 0 then 0 else i + n)
    else if i > n then n
    else i
  }

  /** `s[a:b]` with Python's negative-index and clamping rules. */
  function PySlice(s: string, a: int, b: int): string {
    var i := SliceIndex(|s|, a);
    var j := SliceIndex(|s|, b);
    if i < j then s[i..j] else ""
  }

  /** `s.find(c)` for one character: the first index, or -1. */
  function Find(s: string, c: char): (k: int)
    ensures -1 <= k < |s|
    ensures k == -1 <==> c !in s
    ensures k >= 0 ==> s[k] == c && c !in s[..k]
    decreases |s|
  {
    if |s| == 0 then -1
    else if s[0] == c then 0
    else
      var k := Find(s[1..], c);
      if k == -1 then -1
      else
        assert s[..k + 1] == [s[0]] + s[1..][..k];
        k + 1
  }

  /** `s.rfind(c)` for one character: the last index, or -1. */
  function RFind(s: string, c: char): (k: int)
    ensures -1 <= k < |s|
    ensures k == -1 <==> c !in s
    ensures k >= 0 ==> s[k] == c && forall j :: k < j < |s| ==> s[j] != c
    decreases |s|
  {
    if |s| == 0 then -1
    else if s[|s| - 1] == c then |s| - 1
    else
      var k := RFind(s[..|s| - 1], c);
      assert c in s ==> c in s[..|s| - 1] by {
        if c in s {
          var j :| 0 <= j < |s| && s[j] == c;
          assert s[..|s| - 1][j] == c;
        }
      }
      k
  }
}
