/**
  The few Python string builtins the cog relies on, with Python's semantics:
  `sep.join(parts)`, `s.split(sep)`, `s.replace(old, new)`, `s.capitalize()`
  (on ASCII letters) and `str(n)` for a non-negative integer.
 */
module Strings {

  /** Concatenation regroups freely (a helper for accumulating loops). */
  lemma AppendAssoc<T>(a: seq<T>, b: seq<T>, c: seq<T>)
    ensures (a + b) + c == a + (b + c)
  {
  }

  // ---------------------------------------------------------------------------
  // sep.join(parts)
  // ---------------------------------------------------------------------------

  /** Python's `sep.join(parts)`. */
  function Join(sep: string, parts: seq<string>): string
  {
    if |parts| == 0 then ""
    else if |parts| == 1 then parts[0]
    else parts[0] + sep + Join(sep, parts[1..])
  }

  /** A joined string holds a character only if a part or the separator does. */
  lemma {:induction false} JoinAvoids(sep: string, parts: seq<string>, c: char)
    requires c !in sep
    requires forall i | 0 <= i < |parts| :: c !in parts[i]
    ensures c !in Join(sep, parts)
  {
    if |parts| > 1 {
      JoinAvoids(sep, parts[1..], c);
    }
  }

  /** With two or more parts, the separator appears in the joined string. */
  lemma {:induction false} JoinShowsSeparator(sep: string, parts: seq<string>)
    requires |sep| > 0 && |parts| >= 2
    ensures sep[0] in Join(sep, parts)
  {
    var r := Join(sep, parts);
    assert r == parts[0] + sep + Join(sep, parts[1..]);
    assert r[|parts[0]|] == sep[0];
  }

  // ---------------------------------------------------------------------------
  // s.split(sep)
  // ---------------------------------------------------------------------------

  /** `pat` occurs in `s` starting at index `i`. */
  predicate OccursAt(s: string, pat: string, i: int)
  {
    0 <= i && i + |pat| <= |s| && s[i..i + |pat|] == pat
  }

  /**
    Python's `s.split(sep)` for a non-empty separator: the pieces between the
    non-overlapping occurrences of `sep`, found scanning left to right.
   */
  function Split(s: string, sep: string): (r: seq<string>)
    requires |sep| > 0
    ensures |r| >= 1
    decreases |s|
  {
    if |s| < |sep| then [s]
    else if s[..|sep|] == sep then [""] + Split(s[|sep|..], sep)
    else
      var rest := Split(s[1..], sep);
      [[s[0]] + rest[0]] + rest[1..]
  }

  /** A string without the (one-character) separator splits into itself alone. */
  lemma {:induction false} SplitWithoutSeparator(p: string, sep: string)
    requires |sep| == 1 && sep[0] !in p
    ensures Split(p, sep) == [p]
    decreases |p|
  {
    if |p| >= 1 {
      assert p[..1] != sep by { assert p[..1][0] == p[0]; }
      SplitWithoutSeparator(p[1..], sep);
      assert [p[0]] + p[1..] == p;
    }
  }

  /** Splitting `p + sep + rest`, where `p` is free of the separator, yields `p` first. */
  lemma {:induction false} SplitAtFirstSeparator(p: string, sep: string, rest: string)
    requires |sep| == 1 && sep[0] !in p
    ensures Split(p + sep + rest, sep) == [p] + Split(rest, sep)
    decreases |p|
  {
    var s := p + sep + rest;
    if |p| == 0 {
      assert s == sep + rest;
      assert s[..1] == sep;
      assert s[1..] == rest;
    } else {
      assert s[..1] != sep by { assert s[..1][0] == p[0]; }
      assert s[1..] == p[1..] + sep + rest;
      SplitAtFirstSeparator(p[1..], sep, rest);
      assert [p[0]] + p[1..] == p;
    }
  }

  /**
    Splitting undoes joining: for a one-character separator that no part
    contains, `sep.join(parts).split(sep) == parts`.
   */
  lemma {:induction false} SplitJoin(sep: string, parts: seq<string>)
    requires |sep| == 1 && |parts| >= 1
    requires forall i | 0 <= i < |parts| :: sep[0] !in parts[i]
    ensures Split(Join(sep, parts), sep) == parts
  {
    if |parts| == 1 {
      SplitWithoutSeparator(parts[0], sep);
    } else {
      SplitJoin(sep, parts[1..]);
      SplitAtFirstSeparator(parts[0], sep, Join(sep, parts[1..]));
      assert [parts[0]] + parts[1..] == parts;
    }
  }

  // ---------------------------------------------------------------------------
  // s.replace(old, new)
  // ---------------------------------------------------------------------------

  /**
    Python's `s.replace(pat, rep)` for a non-empty pattern: every
    non-overlapping occurrence of `pat`, found scanning left to right, is
    replaced by `rep`.
   */
  function Replace(s: string, pat: string, rep: string): string
    requires |pat| > 0
    decreases |s|
  {
    if |s| < |pat| then s
    else if s[..|pat|] == pat then rep + Replace(s[|pat|..], pat, rep)
    else [s[0]] + Replace(s[1..], pat, rep)
  }

  /**
    Python documents `s.replace(pat, rep)` as `rep.join(s.split(pat))`; the
    scanning definition agrees with it on every input.
   */
  lemma {:induction false} ReplaceIsJoinOfSplit(s: string, pat: string, rep: string)
    requires |pat| > 0
    ensures Replace(s, pat, rep) == Join(rep, Split(s, pat))
    decreases |s|
  {
    if |s| < |pat| {
    } else if s[..|pat|] == pat {
      ReplaceIsJoinOfSplit(s[|pat|..], pat, rep);
      var pieces := Split(s[|pat|..], pat);
      assert Split(s, pat) == [""] + pieces;
      assert ([""] + pieces)[1..] == pieces;
      assert Join(rep, [""] + pieces) == "" + rep + Join(rep, pieces);
      assert "" + rep == rep;
    } else {
      ReplaceIsJoinOfSplit(s[1..], pat, rep);
      var pieces := Split(s[1..], pat);
      var first := [s[0]] + pieces[0];
      assert Split(s, pat) == [first] + pieces[1..];
      if |pieces| > 1 {
        var tail := Join(rep, pieces[1..]);
        assert ([first] + pieces[1..])[1..] == pieces[1..];
        assert Join(rep, pieces) == pieces[0] + rep + tail;
        AppendAssoc([s[0]], pieces[0], rep);
        AppendAssoc([s[0]], pieces[0] + rep, tail);
      }
    }
  }

  /** When `pat` does not occur in `s`, replacing it changes nothing. */
  lemma {:induction false} ReplaceAbsent(s: string, pat: string, rep: string)
    requires |pat| > 0
    requires forall i :: !OccursAt(s, pat, i)
    ensures Replace(s, pat, rep) == s
    decreases |s|
  {
    if |s| >= |pat| {
      assert !OccursAt(s, pat, 0);
      forall i
        ensures !OccursAt(s[1..], pat, i)
      {
        if OccursAt(s[1..], pat, i) {
          assert s[1..][i..i + |pat|] == s[i + 1..i + 1 + |pat|];
          assert OccursAt(s, pat, i + 1);
        }
      }
      ReplaceAbsent(s[1..], pat, rep);
      assert [s[0]] + s[1..] == s;
    }
  }

  /** Removing a pattern (replacing it by "") never lengthens a string. */
  lemma {:induction false} RemoveShortens(s: string, pat: string)
    requires |pat| > 0
    ensures |Replace(s, pat, "")| <= |s|
    decreases |s|
  {
    if |s| < |pat| {
    } else if s[..|pat|] == pat {
      RemoveShortens(s[|pat|..], pat);
    } else {
      RemoveShortens(s[1..], pat);
    }
  }

  // ---------------------------------------------------------------------------
  // s.capitalize()
  // ---------------------------------------------------------------------------

  predicate IsAsciiUpper(c: char) { 'A' <= c <= 'Z' }

  predicate IsAsciiLower(c: char) { 'a' <= c <= 'z' }

  /** Upper-cases an ASCII letter; every other character is left alone. */
  function ToUpper(c: char): (u: char)
    ensures !IsAsciiLower(u)
    ensures !IsAsciiLower(c) ==> u == c
  {
    if IsAsciiLower(c) then (c as int - 'a' as int + 'A' as int) as char else c
  }

  /** Lower-cases an ASCII letter; every other character is left alone. */
  function ToLower(c: char): (l: char)
    ensures !IsAsciiUpper(l)
    ensures !IsAsciiUpper(c) ==> l == c
  {
    if IsAsciiUpper(c) then (c as int - 'A' as int + 'a' as int) as char else c
  }

  /** Python's `s.capitalize()` on ASCII: first character upper-cased, the rest lower-cased. */
  function Capitalize(s: string): (r: string)
    ensures |r| == |s|
    ensures |s| > 0 ==> r[0] == ToUpper(s[0])
    ensures forall i | 1 <= i < |s| :: r[i] == ToLower(s[i])
  {
    if |s| == 0 then "" else [ToUpper(s[0])] + seq(|s| - 1, i requires 0 <= i < |s| - 1 => ToLower(s[i + 1]))
  }

  /** `s` has no ASCII upper-case letter. */
  predicate NoUpper(s: string)
  {
    forall i | 0 <= i < |s| :: !IsAsciiUpper(s[i])
  }

  /** Capitalising `a + b` only touches `b` through lower-casing, which leaves a lower-case `b` alone. */
  lemma CapitalizeAppendLower(a: string, b: string)
    requires |a| > 0 && NoUpper(b)
    ensures Capitalize(a + b) == Capitalize(a) + b
  {
    var r := Capitalize(a + b);
    forall i | 0 <= i < |r|
      ensures r[i] == (Capitalize(a) + b)[i]
    {
      if i >= |a| {
        assert (a + b)[i] == b[i - |a|];
      }
    }
  }

  /** A capitalised string is left unchanged by capitalising it again. */
  lemma CapitalizeIdempotent(s: string)
    ensures Capitalize(Capitalize(s)) == Capitalize(s)
  {
  }

  // ---------------------------------------------------------------------------
  // str(n)
  // ---------------------------------------------------------------------------

  function DigitChar(d: nat): (c: char)
    requires d < 10
    ensures '0' <= c <= '9'
  {
    ('0' as int + d) as char
  }

  predicate IsDigits(s: string)
  {
    forall i | 0 <= i < |s| :: '0' <= s[i] <= '9'
  }

  /** Python's `str(n)` (also an f-string's `{n}`) for a non-negative integer. */
  function Decimal(n: nat): (r: string)
    ensures |r| >= 1 && IsDigits(r)
    ensures r[0] == '0' ==> n == 0
    decreases n
  {
    if n < 10 then [DigitChar(n)] else Decimal(n / 10) + [DigitChar(n % 10)]
  }

  /** Reads a string of decimal digits back as a number (Python's `int(s)`). */
  function ParseDecimal(s: string): nat
    requires IsDigits(s)
  {
    if |s| == 0 then 0
    else ParseDecimal(s[..|s| - 1]) * 10 + (s[|s| - 1] as int - '0' as int)
  }

  /** Decimal rendering loses nothing: `int(str(n)) == n`. */
  lemma {:induction false} DecimalRoundTrip(n: nat)
    ensures ParseDecimal(Decimal(n)) == n
    decreases n
  {
    if n >= 10 {
      DecimalRoundTrip(n / 10);
      var r := Decimal(n);
      assert r[..|r| - 1] == Decimal(n / 10);
    }
  }
}
