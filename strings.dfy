/**
 * Text helpers standing in for the Python string methods the engine relies on:
 * str.isspace, str.strip, str.split() (on whitespace), str.split(sep), int()
 * on a decimal literal and ConfigParser's boolean tokens.
 */
module Strings {
  import opened Wrappers

  /** The characters for which Python's str.isspace holds. */
  const SpaceChars: set<char> := {
    ' ', '\t', '\n', '\U{B}', '\U{C}', '\r', '\U{1C}', '\U{1D}', '\U{1E}', '\U{1F}',
    '\U{85}', '\U{A0}', '\U{1680}', '\U{2000}', '\U{2001}', '\U{2002}', '\U{2003}',
    '\U{2004}', '\U{2005}', '\U{2006}', '\U{2007}', '\U{2008}', '\U{2009}', '\U{200A}',
    '\U{2028}', '\U{2029}', '\U{202F}', '\U{205F}', '\U{3000}'}

  predicate IsSpace(c: char) {
    c in SpaceChars
  }

  predicate NoSpace(s: string) {
    forall i :: 0 <= i < |s| ==> !IsSpace(s[i])
  }

  /** `s.lstrip()`. */
  function TrimLeft(s: string): string {
    if s != [] && IsSpace(s[0]) then TrimLeft(s[1..]) else s
  }

  /** `s.lstrip()` drops the leading whitespace and nothing else. */
  lemma {:induction false} TrimLeftShape(s: string)
    ensures |TrimLeft(s)| <= |s| && TrimLeft(s) == s[|s| - |TrimLeft(s)|..]
    ensures forall i :: 0 <= i < |s| - |TrimLeft(s)| ==> IsSpace(s[i])
    ensures TrimLeft(s) == [] || !IsSpace(TrimLeft(s)[0])
  {
    if s != [] && IsSpace(s[0]) {
      var t := s[1..];
      TrimLeftShape(t);
      assert TrimLeft(s) == TrimLeft(t);
      forall i | 1 <= i < |s| - |TrimLeft(s)| ensures IsSpace(s[i]) {
        assert s[i] == t[i - 1];
      }
    }
  }

  /** `s.rstrip()`. */
  function TrimRight(s: string): string {
    if s != [] && IsSpace(s[|s| - 1]) then TrimRight(s[..|s| - 1]) else s
  }

  /** `s.rstrip()` drops the trailing whitespace and nothing else. */
  lemma {:induction false} TrimRightShape(s: string)
    ensures |TrimRight(s)| <= |s| && TrimRight(s) == s[..|TrimRight(s)|]
    ensures forall i :: |TrimRight(s)| <= i < |s| ==> IsSpace(s[i])
    ensures TrimRight(s) == [] || !IsSpace(TrimRight(s)[|TrimRight(s)| - 1])
  {
    if s != [] && IsSpace(s[|s| - 1]) {
      var t := s[..|s| - 1];
      TrimRightShape(t);
      assert TrimRight(s) == TrimRight(t);
      forall i | |TrimRight(s)| <= i < |s| - 1 ensures IsSpace(s[i]) {
        assert s[i] == t[i];
      }
    }
  }

  /** Every character of `s` is whitespace (so `s.strip()` is falsy). */
  predicate IsBlank(s: string) {
    forall i :: 0 <= i < |s| ==> IsSpace(s[i])
  }

  /** `s.strip()`: the result is empty exactly when `s` is blank, and otherwise starts
      and ends with a non-space character. */
  function Strip(s: string): (r: string)
    ensures r == [] <==> IsBlank(s)
    ensures r == [] || (!IsSpace(r[0]) && !IsSpace(r[|r| - 1]))
  {
    TrimLeftShape(s);
    TrimRightShape(TrimLeft(s));
    TrimRight(TrimLeft(s))
  }

  /** Stripping only removes characters. */
  lemma StripKeeps(s: string, c: char)
    requires c in Strip(s)
    ensures c in s
  {
    var t := TrimLeft(s);
    var r := TrimRight(t);
    TrimLeftShape(s);
    TrimRightShape(t);
    var k :| 0 <= k < |r| && r[k] == c;
    assert t[k] == c;
    assert s[|s| - |t| + k] == c;
  }

  /** A string that neither starts nor ends with whitespace is its own strip. */
  lemma StripTrimmed(s: string)
    requires s == [] || (!IsSpace(s[0]) && !IsSpace(s[|s| - 1]))
    ensures Strip(s) == s
  {
  }

  /** Stripping twice is stripping once. */
  lemma StripIdempotent(s: string)
    ensures Strip(Strip(s)) == Strip(s)
  {
    StripTrimmed(Strip(s));
  }

  // ---------------------------------------------------------------------------
  // str.split() with no argument: the maximal runs of non-space characters.

  /** Length of the leading run of non-space characters. */
  function RunLength(s: string): (n: nat)
    ensures n <= |s|
    ensures forall i :: 0 <= i < n ==> !IsSpace(s[i])
    ensures n == |s| || IsSpace(s[n])
  {
    if s == [] || IsSpace(s[0]) then 0 else 1 + RunLength(s[1..])
  }

  function Words(s: string): (ws: seq<string>)
    ensures forall w :: w in ws ==> w != [] && NoSpace(w)
    decreases |s|
  {
    if s == [] then []
    else if IsSpace(s[0]) then Words(s[1..])
    else
      var n := RunLength(s);
      [s[..n]] + Words(s[n..])
  }

  /** `w` occurs in `s` at position `i` with whitespace or the end of the string on both sides. */
  predicate DelimitedAt(s: string, w: string, i: int) {
    0 <= i && i + |w| <= |s| && s[i..i + |w|] == w
    && (i == 0 || IsSpace(s[i - 1]))
    && (i + |w| == |s| || IsSpace(s[i + |w|]))
  }

  /** Shifting past a leading whitespace character keeps the delimited occurrences. */
  lemma DelimitedPastSpace(s: string, w: string)
    requires s != [] && IsSpace(s[0]) && w != [] && NoSpace(w)
    ensures (exists i :: DelimitedAt(s, w, i)) <==> exists i :: DelimitedAt(s[1..], w, i)
  {
    var t := s[1..];
    if exists i :: DelimitedAt(s, w, i) {
      var i :| DelimitedAt(s, w, i);
      assert s[i] == w[0];
      assert t[i - 1..i - 1 + |w|] == s[i..i + |w|];
      assert DelimitedAt(t, w, i - 1);
    }
    if exists i :: DelimitedAt(t, w, i) {
      var i :| DelimitedAt(t, w, i);
      assert s[i + 1..i + 1 + |w|] == t[i..i + |w|];
      assert DelimitedAt(s, w, i + 1);
    }
  }

  /** An occurrence at the start of `s` is delimited exactly when it is the leading run. */
  lemma DelimitedAtStart(s: string, w: string)
    requires w != [] && NoSpace(w)
    ensures DelimitedAt(s, w, 0) <==> w == s[..RunLength(s)]
  {
    if w == s[..RunLength(s)] {
      assert s[0..|w|] == w;
    }
  }

  /** A delimited occurrence away from the start of `s` lies beyond its leading run. */
  lemma DelimitedBeyondRun(s: string, w: string, i: int)
    requires w != [] && NoSpace(w) && i != 0 && DelimitedAt(s, w, i)
    ensures i > RunLength(s) && DelimitedAt(s[RunLength(s)..], w, i - RunLength(s))
  {
    var n := RunLength(s);
    assert s[n..][i - n..i - n + |w|] == s[i..i + |w|];
  }

  /** A delimited occurrence past the leading run of `s` is one in `s`. */
  lemma DelimitedAfterRun(s: string, w: string, i: int)
    requires s != [] && !IsSpace(s[0]) && w != [] && NoSpace(w)
    requires DelimitedAt(s[RunLength(s)..], w, i)
    ensures DelimitedAt(s, w, RunLength(s) + i)
  {
    var n := RunLength(s);
    var t := s[n..];
    assert t[i] == w[0] && !IsSpace(w[0]);
    assert IsSpace(s[n]) && t[0] == s[n];
    assert i > 0 && t[i - 1] == s[n + i - 1];
    assert s[n + i..n + i + |w|] == t[i..i + |w|];
    if i + |w| < |t| {
      assert t[i + |w|] == s[n + i + |w|];
    }
  }

  /** Past a leading run, the delimited occurrences are those of the rest of the string. */
  lemma DelimitedPastRun(s: string, w: string)
    requires s != [] && !IsSpace(s[0]) && w != [] && NoSpace(w)
    ensures (exists i :: i != 0 && DelimitedAt(s, w, i)) <==> exists i :: DelimitedAt(s[RunLength(s)..], w, i)
  {
    var n := RunLength(s);
    if exists i :: i != 0 && DelimitedAt(s, w, i) {
      var i :| i != 0 && DelimitedAt(s, w, i);
      DelimitedBeyondRun(s, w, i);
    }
    if exists i :: DelimitedAt(s[n..], w, i) {
      var i :| DelimitedAt(s[n..], w, i);
      DelimitedAfterRun(s, w, i);
    }
  }

  /** A whitespace-free word is among the words of `s` exactly when it occurs delimited in `s`. */
  lemma {:induction false} WordsFindDelimited(s: string, w: string)
    requires w != [] && NoSpace(w)
    ensures w in Words(s) <==> exists i :: DelimitedAt(s, w, i)
    decreases |s|
  {
    if s == [] {
    } else if IsSpace(s[0]) {
      WordsFindDelimited(s[1..], w);
      DelimitedPastSpace(s, w);
    } else {
      var n := RunLength(s);
      assert Words(s) == [s[..n]] + Words(s[n..]);
      WordsFindDelimited(s[n..], w);
      DelimitedAtStart(s, w);
      DelimitedPastRun(s, w);
    }
  }

  // ---------------------------------------------------------------------------
  // str.split(sep) and its inverse, sep.join(parts).

  function Split(s: string, sep: char): (parts: seq<string>)
    ensures |parts| >= 1
    ensures forall p :: p in parts ==> sep !in p
  {
    if s == [] then [[]]
    else
      var rest := Split(s[1..], sep);
      if s[0] == sep then [[]] + rest
      else [[s[0]] + rest[0]] + rest[1..]
  }

  function Join(parts: seq<string>, sep: char): string
    requires |parts| >= 1
  {
    if |parts| == 1 then parts[0] else parts[0] + [sep] + Join(parts[1..], sep)
  }

  /** Joining the pieces of a split gives back the original string. */
  lemma {:induction false} JoinSplit(s: string, sep: char)
    ensures Join(Split(s, sep), sep) == s
  {
    if s != [] {
      var rest := Split(s[1..], sep);
      JoinSplit(s[1..], sep);
      if s[0] != sep {
        if |rest| == 1 {
        } else {
          assert ([[s[0]] + rest[0]] + rest[1..])[1..] == rest[1..];
          assert Join(rest, sep) == rest[0] + [sep] + Join(rest[1..], sep);
        }
      } else {
        assert ([[]] + rest)[1..] == rest;
      }
    }
  }

  /** Splitting a join of separator-free pieces gives back the pieces. */
  lemma {:induction false} SplitJoin(parts: seq<string>, sep: char)
    requires |parts| >= 1
    requires forall p :: p in parts ==> sep !in p
    ensures Split(Join(parts, sep), sep) == parts
    decreases |parts|, |parts[0]|
  {
    var p := parts[0];
    if p == [] {
      if |parts| > 1 {
        SplitJoin(parts[1..], sep);
        assert Join(parts, sep) == [sep] + Join(parts[1..], sep);
        assert ([sep] + Join(parts[1..], sep))[1..] == Join(parts[1..], sep);
        assert [[]] + parts[1..] == parts;
      }
    } else {
      var tail := [p[1..]] + parts[1..];
      assert forall q :: q in tail ==> sep !in q by {
        assert forall c :: c in p[1..] ==> c in p;
      }
      SplitJoin(tail, sep);
      var j := Join(parts, sep);
      if |parts| == 1 {
        assert j[1..] == Join(tail, sep);
      } else {
        assert j == [p[0]] + (p[1..] + [sep] + Join(parts[1..], sep));
        assert j[1..] == Join(tail, sep);
      }
      assert p in parts;
      assert j[0] == p[0] && p[0] != sep;
      assert [p[0]] + tail[0] == p;
      assert [p] + tail[1..] == parts;
    }
  }

  // ---------------------------------------------------------------------------
  // int() on a decimal literal, and its inverse for the check of a round trip.

  predicate IsDigit(c: char) { '0' <= c <= '9' }

  predicate IsDigits(t: string) {
    |t| >= 1 && forall i :: 0 <= i < |t| ==> IsDigit(t[i])
  }

  function DigitValue(c: char): nat
    requires IsDigit(c)
  {
    c as int - '0' as int
  }

  function DigitsValue(t: string): nat
    requires forall i :: 0 <= i < |t| ==> IsDigit(t[i])
  {
    if t == [] then 0
    else DigitsValue(t[..|t| - 1]) * 10 + DigitValue(t[|t| - 1])
  }

  /** A simplified `int(s)`: surrounding whitespace, an optional sign, then one or more
      ASCII digits. */
  function ParseInt(s: string): Option<int> {
    var t := Strip(s);
    if |t| >= 1 && t[0] == '-' && IsDigits(t[1..]) then Some(-(DigitsValue(t[1..]) as int))
    else if |t| >= 1 && t[0] == '+' && IsDigits(t[1..]) then Some(DigitsValue(t[1..]))
    else if IsDigits(t) then Some(DigitsValue(t))
    else None
  }

  function ShowNat(n: nat): (t: string)
    ensures IsDigits(t)
  {
    var d := ['0' + (n % 10) as char];
    if n < 10 then d else ShowNat(n / 10) + d
  }

  /** Decimal text of an integer, as Python's str(n). */
  function ShowInt(n: int): string {
    if n < 0 then "-" + ShowNat(-n) else ShowNat(n)
  }

  lemma {:induction false} DigitsOfShowNat(n: nat)
    ensures DigitsValue(ShowNat(n)) == n
  {
    if n >= 10 {
      DigitsOfShowNat(n / 10);
      var t := ShowNat(n);
      assert t[..|t| - 1] == ShowNat(n / 10);
    }
  }

  /** Parsing the decimal text of any integer gives the integer back. */
  lemma ParseShowInt(n: int)
    ensures ParseInt(ShowInt(n)) == Some(n)
  {
    var s := ShowInt(n);
    if n < 0 {
      DigitsOfShowNat(-n);
      assert s[1..] == ShowNat(-n);
      assert !IsDigit(s[0]);
    } else {
      DigitsOfShowNat(n);
    }
    assert IsDigit(s[|s| - 1]);
    StripTrimmed(s);
  }

  // ---------------------------------------------------------------------------
  // ConfigParser.getboolean.

  function LowerAscii(s: string): string {
    if s == [] then []
    else [if 'A' <= s[0] <= 'Z' then (s[0] as int + 32) as char else s[0]] + LowerAscii(s[1..])
  }

  /** The boolean tokens ConfigParser accepts, compared without regard to ASCII case. */
  function ParseBool(s: string): Option<bool> {
    var t := LowerAscii(s);
    if t in ["1", "yes", "true", "on"] then Some(true)
    else if t in ["0", "no", "false", "off"] then Some(false)
    else None
  }
}
