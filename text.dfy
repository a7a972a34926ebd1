/**
 * The PHP string primitives the report generator relies on: trim(),
 * explode()/implode(), the truthiness test of array_filter() on strings,
 * and decimal rendering of non-negative integers.
 */
module Text {

  /** The characters PHP's trim() strips by default: space, tab, line feed,
      carriage return, NUL and vertical tab. */
  predicate IsTrimChar(c: char) {
    c == ' ' || c == '\t' || c == '\n' || c == '\r' || c == '\0' || c == '\U{000B}'
  }

  /** A string with no trim character at either end. */
  predicate IsTrimmed(s: string) {
    s == [] || (!IsTrimChar(s[0]) && !IsTrimChar(s[|s| - 1]))
  }

  /** The first position at or after i that does not hold a trim character. */
  function SkipTrimForward(s: string, i: nat): (k: nat)
    requires i <= |s|
    ensures i <= k <= |s|
    decreases |s| - i
  {
    if i < |s| && IsTrimChar(s[i]) then SkipTrimForward(s, i + 1) else i
  }

  /** The end of s[..j] once its trailing trim characters are dropped. */
  function SkipTrimBackward(s: string, j: nat): (k: nat)
    requires j <= |s|
    ensures k <= j
  {
    if j > 0 && IsTrimChar(s[j - 1]) then SkipTrimBackward(s, j - 1) else j
  }

  /** ltrim(): drops the longest prefix made of trim characters. */
  function TrimLeft(s: string): string {
    s[SkipTrimForward(s, 0)..]
  }

  /** rtrim(): drops the longest suffix made of trim characters. */
  function TrimRight(s: string): string {
    s[..SkipTrimBackward(s, |s|)]
  }

  /** trim(). */
  function Trim(s: string): string {
    TrimRight(TrimLeft(s))
  }

  lemma {:induction false} SkipTrimForwardSpec(s: string, i: nat)
    requires i <= |s|
    ensures forall k :: i <= k < SkipTrimForward(s, i) ==> IsTrimChar(s[k])
    ensures SkipTrimForward(s, i) < |s| ==> !IsTrimChar(s[SkipTrimForward(s, i)])
    decreases |s| - i
  {
    if i < |s| && IsTrimChar(s[i]) {
      SkipTrimForwardSpec(s, i + 1);
    }
  }

  lemma {:induction false} SkipTrimBackwardSpec(s: string, j: nat)
    requires j <= |s|
    ensures forall k :: SkipTrimBackward(s, j) <= k < j ==> IsTrimChar(s[k])
    ensures SkipTrimBackward(s, j) > 0 ==> !IsTrimChar(s[SkipTrimBackward(s, j) - 1])
  {
    if j > 0 && IsTrimChar(s[j - 1]) {
      SkipTrimBackwardSpec(s, j - 1);
    }
  }

  /** ltrim() leaves a suffix that does not start with a trim character, and
      everything it dropped is trim characters. */
  lemma TrimLeftSpec(s: string)
    ensures var r := TrimLeft(s);
      && |r| <= |s| && r == s[|s| - |r|..]
      && (forall i :: 0 <= i < |s| - |r| ==> IsTrimChar(s[i]))
      && (r != [] ==> !IsTrimChar(r[0]))
  {
    SkipTrimForwardSpec(s, 0);
  }

  /** rtrim() leaves a prefix that does not end with a trim character, and
      everything it dropped is trim characters. */
  lemma TrimRightSpec(s: string)
    ensures var r := TrimRight(s);
      && |r| <= |s| && r == s[..|r|]
      && (forall i :: |r| <= i < |s| ==> IsTrimChar(s[i]))
      && (r != [] ==> !IsTrimChar(r[|r| - 1]))
  {
    SkipTrimBackwardSpec(s, |s|);
  }

  /** trim() leaves no trim character at either end, and leaves a string
      that has none there alone. */
  lemma TrimSpec(s: string)
    ensures IsTrimmed(Trim(s))
    ensures IsTrimmed(s) ==> Trim(s) == s
    ensures |Trim(s)| <= |s|
  {
    TrimLeftSpec(s);
    TrimRightSpec(TrimLeft(s));
    var l := TrimLeft(s);
    var r := TrimRight(l);
    if r != [] {
      assert r[0] == l[0];
    }
  }

  /** trim() removes only trim characters, and only at the two ends: the
      result is the infix of s that starts after the leading trim characters,
      and everything around it is trim characters. */
  lemma TrimIsInfix(s: string)
    ensures var i, r := |s| - |TrimLeft(s)|, Trim(s);
      && 0 <= i && i + |r| <= |s| && r == s[i..i + |r|]
      && (forall k :: 0 <= k < i ==> IsTrimChar(s[k]))
      && (forall k :: i + |r| <= k < |s| ==> IsTrimChar(s[k]))
  {
    var l := TrimLeft(s);
    TrimLeftSpec(s);
    TrimRightSpec(l);
    var i := |s| - |l|;
    var r := TrimRight(l);
    assert r == l[..|r|];
    forall k | i + |r| <= k < |s| ensures IsTrimChar(s[k]) {
      assert s[k] == l[k - i];
    }
  }

  /** A string made only of trim characters trims to nothing. */
  lemma TrimBlank(s: string)
    requires forall i :: 0 <= i < |s| ==> IsTrimChar(s[i])
    ensures Trim(s) == []
  {
    TrimSpec(s);
    TrimIsInfix(s);
  }

  lemma TrimIdempotent(s: string)
    ensures Trim(Trim(s)) == Trim(s)
  {
    TrimSpec(s);
    TrimSpec(Trim(s));
  }

  /** explode($sep, $s): the pieces between occurrences of sep, in order; an
      empty string gives one empty piece. */
  function Explode(s: string, sep: char): (parts: seq<string>)
    ensures |parts| >= 1
    ensures forall i :: 0 <= i < |parts| ==> sep !in parts[i]
  {
    if s == [] then [[]]
    else
      var rest := Explode(s[1..], sep);
      if s[0] == sep then [[]] + rest else [[s[0]] + rest[0]] + rest[1..]
  }

  /** implode($sep, $parts). */
  function Implode(parts: seq<string>, sep: char): string {
    if parts == [] then []
    else if |parts| == 1 then parts[0]
    else parts[0] + [sep] + Implode(parts[1..], sep)
  }

  /** Joining the pieces back with the separator restores the string. */
  lemma {:induction false} ImplodeExplode(s: string, sep: char)
    ensures Implode(Explode(s, sep), sep) == s
  {
    if s != [] {
      var rest := Explode(s[1..], sep);
      ImplodeExplode(s[1..], sep);
      if s[0] == sep {
        assert Explode(s, sep) == [[]] + rest;
      } else {
        var parts := Explode(s, sep);
        assert parts == [[s[0]] + rest[0]] + rest[1..];
        if |rest| == 1 {
          assert Implode(parts, sep) == [s[0]] + rest[0];
        } else {
          assert parts[1..] == rest[1..];
          assert Implode(rest, sep) == rest[0] + [sep] + Implode(rest[1..], sep);
          assert Implode(parts, sep) == [s[0]] + rest[0] + [sep] + Implode(rest[1..], sep);
        }
      }
    }
  }

  /** Exploding a piece free of the separator, followed by the separator,
      yields that piece first. */
  lemma {:induction false} ExplodeCons(p: string, sep: char, rest: string)
    requires sep !in p
    ensures Explode(p + [sep] + rest, sep) == [p] + Explode(rest, sep)
  {
    if p == [] {
      assert p + [sep] + rest == [sep] + rest;
      assert ([sep] + rest)[1..] == rest;
    } else {
      ExplodeCons(p[1..], sep, rest);
      assert (p + [sep] + rest)[1..] == p[1..] + [sep] + rest;
      assert [p[0]] + p[1..] == p;
    }
  }

  /** Exploding a string free of the separator yields it whole. */
  lemma {:induction false} ExplodeNoSep(p: string, sep: char)
    requires sep !in p
    ensures Explode(p, sep) == [p]
  {
    if p != [] {
      ExplodeNoSep(p[1..], sep);
      assert [p[0]] + p[1..] == p;
    }
  }

  /** Splitting a joined list of separator-free pieces gives the pieces back. */
  lemma {:induction false} ExplodeImplode(parts: seq<string>, sep: char)
    requires |parts| >= 1
    requires forall i :: 0 <= i < |parts| ==> sep !in parts[i]
    ensures Explode(Implode(parts, sep), sep) == parts
  {
    if |parts| == 1 {
      ExplodeNoSep(parts[0], sep);
    } else {
      ExplodeImplode(parts[1..], sep);
      ExplodeCons(parts[0], sep, Implode(parts[1..], sep));
    }
  }

  /** A final separator is an empty last piece. */
  lemma {:induction false} ImplodeEmptyLast(parts: seq<string>, sep: char)
    requires |parts| >= 1
    ensures Implode(parts + [[]], sep) == Implode(parts, sep) + [sep]
  {
    if |parts| > 1 {
      assert (parts + [[]])[1..] == parts[1..] + [[]];
      ImplodeEmptyLast(parts[1..], sep);
    }
  }

  /** Joining pieces that lack a character, with a different separator,
      gives a string that lacks it too. */
  lemma {:induction false} ImplodeLacks(parts: seq<string>, sep: char, c: char)
    requires c != sep
    requires forall i :: 0 <= i < |parts| ==> c !in parts[i]
    ensures c !in Implode(parts, sep)
  {
    if |parts| > 1 {
      ImplodeLacks(parts[1..], sep, c);
      assert Implode(parts, sep) == parts[0] + [sep] + Implode(parts[1..], sep);
    }
  }

  /** The end-of-line sequence str_getcsv() strips from a line, and from
      each unquoted cell, before using it: one final "\r\n", "\n" or "\r". */
  function DropLineEnd(s: string): (r: string)
    ensures |r| <= |s| && r == s[..|r|]
  {
    if |s| >= 2 && s[|s| - 2] == '\r' && s[|s| - 1] == '\n' then s[..|s| - 2]
    else if |s| >= 1 && (s[|s| - 1] == '\n' || s[|s| - 1] == '\r') then s[..|s| - 1]
    else s
  }

  /** A string with no carriage return or line feed keeps everything, and
      gets back exactly itself after one carriage return is appended. */
  lemma DropLineEndPlain(s: string)
    requires '\r' !in s && '\n' !in s
    ensures DropLineEnd(s) == s
    ensures DropLineEnd(s + "\r") == s
  {
    if s != [] {
      assert s[|s| - 1] in s;
    }
    var t := s + "\r";
    assert t[..|t| - 1] == s;
  }

  /** What remains after the line end is dropped contains nothing new. */
  lemma DropLineEndIn(s: string, c: char)
    requires c !in s
    ensures c !in DropLineEnd(s)
  {
    var r := DropLineEnd(s);
    assert forall i :: 0 <= i < |r| ==> r[i] == s[i];
  }

  /** The strings array_filter() drops: PHP treats "" and "0" as false. */
  predicate IsFalsy(s: string) {
    s == "" || s == "0"
  }

  /** array_filter() on a list of strings, then reindexed: the truthy ones in
      their original order. */
  function DropFalsy(lines: seq<string>): (r: seq<string>)
    ensures |r| <= |lines|
    ensures forall i :: 0 <= i < |r| ==> !IsFalsy(r[i])
    ensures forall x :: x in r <==> x in lines && !IsFalsy(x)
  {
    if lines == [] then []
    else (if IsFalsy(lines[0]) then [] else [lines[0]]) + DropFalsy(lines[1..])
  }

  /** Filtering is done line by line, so it preserves the order of lines. */
  lemma {:induction false} DropFalsyConcat(a: seq<string>, b: seq<string>)
    ensures DropFalsy(a + b) == DropFalsy(a) + DropFalsy(b)
  {
    if a != [] {
      assert (a + b)[1..] == a[1..] + b;
      DropFalsyConcat(a[1..], b);
    } else {
      assert a + b == b;
    }
  }

  /** Lines with no falsy member survive unchanged. */
  lemma {:induction false} DropFalsyNone(lines: seq<string>)
    requires forall i :: 0 <= i < |lines| ==> !IsFalsy(lines[i])
    ensures DropFalsy(lines) == lines
  {
    if lines != [] {
      DropFalsyNone(lines[1..]);
    }
  }

  predicate IsDigit(c: char) {
    '0' <= c <= '9'
  }

  function DigitChar(d: nat): (c: char)
    requires d < 10
    ensures IsDigit(c)
  {
    ('0' as int + d) as char
  }

  function DigitValue(c: char): (d: nat)
    requires IsDigit(c)
    ensures d < 10
  {
    c as int - '0' as int
  }

  /** The decimal form of n, without leading zeros (PHP's "%d", and the "n"
      and "j" formats of date()). */
  function Decimal(n: nat): (s: string)
    ensures |s| >= 1
    ensures forall i :: 0 <= i < |s| ==> IsDigit(s[i])
    ensures s[0] == '0' ==> s == "0"
  {
    if n < 10 then [DigitChar(n)] else Decimal(n / 10) + [DigitChar(n % 10)]
  }

  /** The value of a string of decimal digits. */
  function DecimalValue(s: string): nat
    requires forall i :: 0 <= i < |s| ==> IsDigit(s[i])
  {
    if s == [] then 0
    else DecimalValue(s[..|s| - 1]) * 10 + DigitValue(s[|s| - 1])
  }

  /** Reading back the decimal form gives the number. */
  lemma {:induction false} DecimalRoundTrip(n: nat)
    ensures DecimalValue(Decimal(n)) == n
  {
    if n >= 10 {
      DecimalRoundTrip(n / 10);
      var s := Decimal(n);
      assert s[..|s| - 1] == Decimal(n / 10);
    }
  }
}
