/** The few Python `str` builtins the duplicate checker relies on, written out
    over `seq<char>`: `isspace`, `strip`, `split('\n')`, `split()`,
    `splitlines`, `replace(' ', '')`, `lower` and the code-point order `<=`. */
module PyStrings {
  import opened Wrappers

  /** `c.isspace()`: every character Python treats as white space. */
  predicate IsSpace(c: char)
  {
    || c == ' ' || '\t' <= c <= '\r'
    || '\U{1C}' <= c <= '\U{1F}' || c == '\U{85}' || c == '\U{A0}' || c == '\U{1680}'
    || '\U{2000}' <= c <= '\U{200A}' || c == '\U{2028}' || c == '\U{2029}'
    || c == '\U{202F}' || c == '\U{205F}' || c == '\U{3000}'
  }

  /** The characters at which `str.splitlines` ends a line. */
  predicate IsLineBoundary(c: char)
  {
    || c == '\n' || c == '\r' || c == '\U{B}' || c == '\U{C}'
    || '\U{1C}' <= c <= '\U{1E}' || c == '\U{85}' || c == '\U{2028}' || c == '\U{2029}'
  }

  predicate AllSpace(s: string)
  {
    forall k :: 0 <= k < |s| ==> IsSpace(s[k])
  }

  /** Index of the first non-space character at or after `from`, or `|s|`. */
  function SkipSpace(s: string, from: nat): (i: nat)
    requires from <= |s|
    ensures from <= i <= |s|
    ensures forall k :: from <= k < i ==> IsSpace(s[k])
    ensures i < |s| ==> !IsSpace(s[i])
    decreases |s| - from
  {
    if from == |s| || !IsSpace(s[from]) then from else SkipSpace(s, from + 1)
  }

  /** Index of the first white-space character at or after `from`, or `|s|`. */
  function NextSpace(s: string, from: nat): (i: nat)
    requires from <= |s|
    ensures from <= i <= |s|
    ensures forall k :: from <= k < i ==> !IsSpace(s[k])
    ensures i < |s| ==> IsSpace(s[i])
    decreases |s| - from
  {
    if from == |s| || IsSpace(s[from]) then from else NextSpace(s, from + 1)
  }

  /** Where the white space that ends `s[..stop]` begins. */
  function TrailStart(s: string, stop: nat): (i: nat)
    requires stop <= |s|
    ensures i <= stop
    ensures forall k :: i <= k < stop ==> IsSpace(s[k])
    ensures 0 < i ==> !IsSpace(s[i - 1])
    decreases stop
  {
    if stop == 0 || !IsSpace(s[stop - 1]) then stop else TrailStart(s, stop - 1)
  }

  /** `s.lstrip()`: the suffix left after the leading white space. */
  function LStrip(s: string): (r: string)
    ensures |r| <= |s| && r == s[|s| - |r|..]
    ensures AllSpace(s[..|s| - |r|])
    ensures r == [] || !IsSpace(r[0])
  {
    var n := SkipSpace(s, 0);
    assert forall k :: 0 <= k < n ==> s[..n][k] == s[k];
    s[n..]
  }

  /** `s.rstrip()`: the prefix left before the trailing white space. */
  function RStrip(s: string): (r: string)
    ensures |r| <= |s| && r == s[..|r|]
    ensures AllSpace(s[|r|..])
    ensures r == [] || !IsSpace(r[|r| - 1])
  {
    var n := TrailStart(s, |s|);
    assert forall k :: 0 <= k < |s| - n ==> s[n..][k] == s[n + k];
    s[..n]
  }

  /** `s.strip()`. */
  function Strip(s: string): (r: string)
    ensures r == [] || (!IsSpace(r[0]) && !IsSpace(r[|r| - 1]))
  {
    RStrip(LStrip(s))
  }

  /** `r` occurs in `s` at index `i` with only white space before and
      after it. */
  predicate TrimmedAt(s: string, i: int, r: string)
  {
    && 0 <= i && i + |r| <= |s|
    && (forall k :: 0 <= k < i ==> IsSpace(s[k]))
    && (forall k :: 0 <= k < |r| ==> s[i + k] == r[k])
    && (forall k :: i + |r| <= k < |s| ==> IsSpace(s[k]))
  }

  lemma LStripAt(s: string)
    ensures TrimmedAt(s, |s| - |LStrip(s)|, LStrip(s))
  {
    var t := LStrip(s);
    var i := |s| - |t|;
    forall k | 0 <= k < i ensures IsSpace(s[k]) {
      assert s[k] == s[..i][k];
    }
  }

  lemma RStripAt(s: string)
    ensures TrimmedAt(s, 0, RStrip(s))
  {
    var r := RStrip(s);
    forall k | |r| <= k < |s| ensures IsSpace(s[k]) {
      assert s[k] == s[|r|..][k - |r|];
    }
  }

  lemma TrimmedCompose(s: string, i: int, t: string, r: string)
    requires TrimmedAt(s, i, t) && TrimmedAt(t, 0, r)
    ensures TrimmedAt(s, i, r)
  {
    forall k | 0 <= k < |r| ensures s[i + k] == r[k] {
      assert t[0 + k] == r[k];
    }
    forall k | i + |r| <= k < |s| ensures IsSpace(s[k]) {
      if k < i + |t| {
        assert s[i + (k - i)] == t[k - i];
      }
    }
  }

  /** `Strip` removes exactly the white space at both ends of `s`. */
  lemma StripTrims(s: string)
    ensures exists i :: TrimmedAt(s, i, Strip(s))
  {
    var t := LStrip(s);
    var i := |s| - |t|;
    LStripAt(s);
    RStripAt(t);
    TrimmedCompose(s, i, t, RStrip(t));
    assert TrimmedAt(s, i, Strip(s));
  }

  /** Index of the first `c` in `s`, or `|s|` when there is none. */
  function IndexOf(s: string, c: char): (i: nat)
    ensures i <= |s|
    ensures i < |s| ==> s[i] == c
    ensures c !in s[..i]
  {
    if s == [] || s[0] == c then 0 else 1 + IndexOf(s[1..], c)
  }

  /** Index of the last `c` in `s`, or -1 when there is none (`str.rfind`). */
  function LastIndexOf(s: string, c: char): (i: int)
    ensures -1 <= i < |s|
    ensures 0 <= i ==> s[i] == c
    ensures forall k :: i < k < |s| ==> s[k] != c
  {
    if s == [] then -1
    else if s[|s| - 1] == c then |s| - 1
    else LastIndexOf(s[..|s| - 1], c)
  }

  /** `s.split(sep)` for a one-character separator. */
  function SplitOn(s: string, sep: char): (parts: seq<string>)
    ensures |parts| >= 1
    ensures forall k :: 0 <= k < |parts| ==> sep !in parts[k]
    ensures JoinWith(parts, sep) == s
    decreases |s|
  {
    var i := IndexOf(s, sep);
    if i == |s| then [s]
    else
      var rest := SplitOn(s[i + 1..], sep);
      assert s == s[..i] + [sep] + s[i + 1..];
      [s[..i]] + rest
  }

  /** `sep.join(parts)`: the inverse of `SplitOn`. */
  function JoinWith(parts: seq<string>, sep: char): string
  {
    if parts == [] then []
    else if |parts| == 1 then parts[0]
    else parts[0] + [sep] + JoinWith(parts[1..], sep)
  }

  /** `s.split(sep)` has at least two parts exactly when `sep` occurs in `s`. */
  lemma {:induction false} SplitOnTwoParts(s: string, sep: char)
    ensures |SplitOn(s, sep)| >= 2 <==> sep in s
  {
    var i := IndexOf(s, sep);
    if i < |s| {
      assert s[i] == sep;
    } else {
      assert s[..i] == s;
    }
  }

  /** Index of the first line boundary at or after `from`, or `|s|`. */
  function LineEnd(s: string, from: nat): (i: nat)
    requires from <= |s|
    ensures from <= i <= |s|
    ensures i < |s| ==> IsLineBoundary(s[i])
    ensures forall k :: from <= k < i ==> !IsLineBoundary(s[k])
    decreases |s| - from
  {
    if from == |s| || IsLineBoundary(s[from]) then from else LineEnd(s, from + 1)
  }

  /** Length of the line break at index `i`: 2 for `"\r\n"`, otherwise 1. */
  function BreakWidth(s: string, i: nat): (w: nat)
    requires i < |s|
    ensures 1 <= w && i + w <= |s|
  {
    if s[i] == '\r' && i + 1 < |s| && s[i + 1] == '\n' then 2 else 1
  }

  /** The lines of `s[from..]`. */
  function LinesFrom(s: string, from: nat): (lines: seq<string>)
    requires from <= |s|
    ensures from == |s| <==> lines == []
    decreases |s| - from
  {
    if from == |s| then []
    else
      var i := LineEnd(s, from);
      if i == |s| then [s[from..]]
      else [s[from..i]] + LinesFrom(s, i + BreakWidth(s, i))
  }

  /** The break that ended each line of `LinesFrom(s, from)`; `""` for a
      last line that runs to the end of `s`. */
  function BreaksFrom(s: string, from: nat): (ends: seq<string>)
    requires from <= |s|
    ensures |ends| == |LinesFrom(s, from)|
    decreases |s| - from
  {
    if from == |s| then []
    else
      var i := LineEnd(s, from);
      if i == |s| then [""]
      else [s[i..i + BreakWidth(s, i)]] + BreaksFrom(s, i + BreakWidth(s, i))
  }

  /** `s.splitlines()`: `"\r\n"` ends one line, a final boundary opens no
      empty last line, and the empty string has no lines. */
  function SplitLines(s: string): (lines: seq<string>)
    ensures s == [] <==> lines == []
  {
    LinesFrom(s, 0)
  }

  /** The line break that ended each line of `SplitLines(s)`. */
  function LineBreaks(s: string): (ends: seq<string>)
    ensures |ends| == |SplitLines(s)|
  {
    BreaksFrom(s, 0)
  }

  predicate NoLineBoundary(s: string)
  {
    forall j :: 0 <= j < |s| ==> !IsLineBoundary(s[j])
  }

  /** A line break: `"\r\n"` or one line-boundary character. */
  predicate IsBreak(b: string)
  {
    b == "\r\n" || (|b| == 1 && IsLineBoundary(b[0]))
  }

  /** Each line followed by the break that ended it, all concatenated. */
  function Interleave(lines: seq<string>, ends: seq<string>): string
    requires |lines| == |ends|
  {
    if lines == [] then [] else lines[0] + ends[0] + Interleave(lines[1..], ends[1..])
  }

  lemma InterleaveCons(a: string, b: string, lines: seq<string>, ends: seq<string>)
    requires |lines| == |ends|
    ensures Interleave([a] + lines, [b] + ends) == a + b + Interleave(lines, ends)
  {
    assert ([a] + lines)[1..] == lines && ([b] + ends)[1..] == ends;
  }

  /** Gluing a line and its break in front of the rest of the text. */
  lemma GlueLine(s: string, from: nat, i: nat, j: nat, rest: string)
    requires from <= i <= j <= |s| && |rest| == |s| - j
    requires forall k :: 0 <= k < |rest| ==> rest[k] == s[j + k]
    ensures |s[from..i] + s[i..j] + rest| == |s| - from
    ensures forall k :: 0 <= k < |s| - from ==> (s[from..i] + s[i..j] + rest)[k] == s[from + k]
  {
    var r := s[from..i] + s[i..j] + rest;
    forall k | 0 <= k < |s| - from ensures r[k] == s[from + k] {
      if k >= j - from {
        assert r[k] == rest[k - (j - from)];
      }
    }
  }

  lemma {:induction false} LinesFromRejoin(s: string, from: nat)
    requires from <= |s|
    ensures |Interleave(LinesFrom(s, from), BreaksFrom(s, from))| == |s| - from
    ensures forall k :: 0 <= k < |s| - from ==>
              Interleave(LinesFrom(s, from), BreaksFrom(s, from))[k] == s[from + k]
    decreases |s| - from
  {
    if from < |s| {
      var i := LineEnd(s, from);
      if i < |s| {
        var j := i + BreakWidth(s, i);
        LinesFromRejoin(s, j);
        var rest := Interleave(LinesFrom(s, j), BreaksFrom(s, j));
        assert LinesFrom(s, from) == [s[from..i]] + LinesFrom(s, j);
        assert BreaksFrom(s, from) == [s[i..j]] + BreaksFrom(s, j);
        InterleaveCons(s[from..i], s[i..j], LinesFrom(s, j), BreaksFrom(s, j));
        GlueLine(s, from, i, j, rest);
      } else {
        assert LinesFrom(s, from) == [s[from..]] && BreaksFrom(s, from) == [""];
        assert Interleave([s[from..]], [""]) == s[from..] + "" + Interleave([], []);
      }
    }
  }

  /** `SplitLines` loses nothing but the breaks: putting each line's break
      back gives `s` again. */
  lemma SplitLinesRejoin(s: string)
    ensures Interleave(SplitLines(s), LineBreaks(s)) == s
  {
    LinesFromRejoin(s, 0);
    assert Interleave(SplitLines(s), LineBreaks(s)) == s;
  }

  lemma {:induction false} LinesFromHaveNoBreaks(s: string, from: nat)
    requires from <= |s|
    ensures forall k :: 0 <= k < |LinesFrom(s, from)| ==> NoLineBoundary(LinesFrom(s, from)[k])
    decreases |s| - from
  {
    if from < |s| {
      var i := LineEnd(s, from);
      assert NoLineBoundary(s[from..i]) by {
        forall j | 0 <= j < i - from ensures !IsLineBoundary(s[from..i][j]) {
          assert s[from..i][j] == s[from + j];
        }
      }
      if i < |s| {
        LinesFromHaveNoBreaks(s, i + BreakWidth(s, i));
      }
    }
  }

  /** No line contains a line boundary. */
  lemma LinesHaveNoBreaks(s: string)
    ensures forall k :: 0 <= k < |SplitLines(s)| ==> NoLineBoundary(SplitLines(s)[k])
  {
    LinesFromHaveNoBreaks(s, 0);
  }

  lemma {:induction false} BreaksFromAreBreaks(s: string, from: nat)
    requires from <= |s|
    ensures forall k :: 0 <= k < |BreaksFrom(s, from)| ==>
              IsBreak(BreaksFrom(s, from)[k])
              || (k == |BreaksFrom(s, from)| - 1 && BreaksFrom(s, from)[k] == []
                  && LinesFrom(s, from)[k] != [])
    decreases |s| - from
  {
    if from < |s| {
      var i := LineEnd(s, from);
      if i < |s| {
        var j := i + BreakWidth(s, i);
        BreaksFromAreBreaks(s, j);
        assert IsBreak(s[i..j]);
      }
    }
  }

  /** Every line ends with a real break, except that a last, non-empty line
      may run to the end of the text. */
  lemma LineBreaksAreBreaks(s: string)
    ensures forall k :: 0 <= k < |LineBreaks(s)| ==>
              IsBreak(LineBreaks(s)[k])
              || (k == |LineBreaks(s)| - 1 && LineBreaks(s)[k] == [] && SplitLines(s)[k] != [])
  {
    BreaksFromAreBreaks(s, 0);
  }

  /** No `"\r"` break is directly followed by an empty line ended by
      `"\n"`. */
  predicate NoSplitCrLf(lines: seq<string>, ends: seq<string>)
    requires |lines| == |ends|
  {
    |ends| < 2
    || ((ends[0] == "\r" ==> lines[1] != [] || ends[1] != "\n")
        && NoSplitCrLf(lines[1..], ends[1..]))
  }

  /** When the first line is empty, the text starts with its break. */
  lemma EmptyFirstLine(s: string, from: nat)
    requires from < |s|
    ensures LinesFrom(s, from)[0] == [] && BreaksFrom(s, from)[0] != [] ==>
              BreaksFrom(s, from)[0][0] == s[from]
  {
  }

  lemma {:induction false} CrLfFromIsOneBreak(s: string, from: nat)
    requires from <= |s|
    ensures NoSplitCrLf(LinesFrom(s, from), BreaksFrom(s, from))
    decreases |s| - from
  {
    if from < |s| {
      var i := LineEnd(s, from);
      if i < |s| {
        var j := i + BreakWidth(s, i);
        CrLfFromIsOneBreak(s, j);
        var lines, ends := LinesFrom(s, from), BreaksFrom(s, from);
        assert lines[1..] == LinesFrom(s, j) && ends[1..] == BreaksFrom(s, j);
        if j < |s| {
          EmptyFirstLine(s, j);
          assert ends[0] == "\r" ==> s[j] != '\n';
        }
      }
    }
  }

  /** A `"\r"` directly followed by `"\n"` is one break, never two breaks
      around an empty line. */
  lemma CrLfIsOneBreak(s: string)
    ensures NoSplitCrLf(SplitLines(s), LineBreaks(s))
  {
    CrLfFromIsOneBreak(s, 0);
  }

  /** `w` occurs in `s` at index `i`, preceded only by white space and
      followed by white space or the end. */
  predicate WordAt(s: string, i: int, w: string)
  {
    && 0 <= i && i + |w| <= |s|
    && (forall k :: 0 <= k < i ==> IsSpace(s[k]))
    && (forall k :: 0 <= k < |w| ==> s[i + k] == w[k])
    && (i + |w| == |s| || IsSpace(s[i + |w|]))
  }

  /** `w` is the first white-space separated word of `s`: a non-empty run
      of non-space characters found at the start of `s` once leading white
      space is skipped. */
  ghost predicate IsFirstWord(s: string, w: string)
  {
    && w != [] && (forall k :: 0 <= k < |w| ==> !IsSpace(w[k]))
    && exists i :: WordAt(s, i, w)
  }

  /** `s.split()[0]`: the first run of non-space characters; `None` where
      Python raises `IndexError` because `s` is blank. */
  function FirstToken(s: string): (r: Option<string>)
    ensures r.None? <==> AllSpace(s)
    ensures r.Some? ==> IsFirstWord(s, r.value)
  {
    var i := SkipSpace(s, 0);
    if i == |s| then None
    else
      var j := NextSpace(s, i);
      assert forall k :: 0 <= k < j - i ==> s[i..j][k] == s[i + k];
      assert WordAt(s, i, s[i..j]);
      Some(s[i..j])
  }

  /** A string has at most one first word. */
  lemma FirstWordUnique(s: string, w: string, v: string)
    requires IsFirstWord(s, w) && IsFirstWord(s, v)
    ensures w == v
  {
    var i :| WordAt(s, i, w);
    var j :| WordAt(s, j, v);
    assert !IsSpace(w[0]) && !IsSpace(v[0]);
    assert i == j;
    forall k | i <= k < i + |w| ensures !IsSpace(s[k]) {
      assert s[i + (k - i)] == w[k - i];
    }
    forall k | i <= k < i + |v| ensures !IsSpace(s[k]) {
      assert s[i + (k - i)] == v[k - i];
    }
    assert |w| == |v|;
  }

  /** `strip` adds no character. */
  lemma StripKeepsAbsent(s: string, x: char)
    requires x !in s
    ensures x !in Strip(s)
  {
    var l := LStrip(s);
    AbsentFromSlice(s, |s| - |l|, |s|, x);
    AbsentFromSlice(l, 0, |RStrip(l)|, x);
  }

  /** A character absent from a string is absent from each of its slices. */
  lemma AbsentFromSlice(s: string, i: nat, j: nat, x: char)
    requires i <= j <= |s| && x !in s
    ensures x !in s[i..j]
  {
  }

  /** `s.replace(c, '')`. */
  function Without(s: string, c: char): (r: string)
    ensures c !in r
    ensures |r| <= |s|
    ensures forall x :: x != c ==> multiset(r)[x] == multiset(s)[x]
    ensures c !in s ==> r == s
  {
    if s == [] then []
    else if s[0] == c then
      assert s == [s[0]] + s[1..];
      Without(s[1..], c)
    else
      assert s == [s[0]] + s[1..];
      [s[0]] + Without(s[1..], c)
  }

  /** `replace` works piece by piece: removing `c` from a concatenation
      removes it from each part and keeps the parts in order. With the
      contract of `Without` on one-character strings, this fixes the result
      as the characters other than `c`, in their original order. */
  lemma {:induction false} WithoutConcat(a: string, b: string, c: char)
    ensures Without(a + b, c) == Without(a, c) + Without(b, c)
  {
    if a != [] {
      assert (a + b)[0] == a[0];
      assert (a + b)[1..] == a[1..] + b;
      WithoutConcat(a[1..], b, c);
    } else {
      assert a + b == b;
    }
  }

  /** `replace` adds no character. */
  lemma WithoutKeepsAbsent(s: string, c: char, x: char)
    requires x !in s
    ensures x !in Without(s, c)
  {
    if x != c {
      assert multiset(s)[x] == 0;
    }
  }

  /** `ch.lower()` for the ASCII letters; every other character is kept. */
  function LowerChar(c: char): (r: char)
  {
    if 'A' <= c <= 'Z' then (c as int + 32) as char else c
  }

  /** `s.lower()`, ASCII letters only. */
  function Lower(s: string): (r: string)
    ensures |r| == |s|
    ensures forall k :: 0 <= k < |s| ==> r[k] == LowerChar(s[k])
  {
    seq(|s|, k requires 0 <= k < |s| => LowerChar(s[k]))
  }

  /** `a <= b` on Python strings: lexicographic order of code points. */
  predicate StrLe(a: string, b: string)
  {
    if a == [] then true
    else if b == [] then false
    else if a[0] != b[0] then a[0] < b[0]
    else StrLe(a[1..], b[1..])
  }

  lemma {:induction false} StrLeReflexive(a: string)
    ensures StrLe(a, a)
  {
    if a != [] { StrLeReflexive(a[1..]); }
  }

  lemma {:induction false} StrLeTotal(a: string, b: string)
    ensures StrLe(a, b) || StrLe(b, a)
  {
    if a != [] && b != [] && a[0] == b[0] { StrLeTotal(a[1..], b[1..]); }
  }

  lemma {:induction false} StrLeAntisymmetric(a: string, b: string)
    requires StrLe(a, b) && StrLe(b, a)
    ensures a == b
  {
    if a != [] && b != [] {
      StrLeAntisymmetric(a[1..], b[1..]);
      assert a == [a[0]] + a[1..] && b == [b[0]] + b[1..];
    }
  }

  lemma {:induction false} StrLeTransitive(a: string, b: string, c: string)
    requires StrLe(a, b) && StrLe(b, c)
    ensures StrLe(a, c)
  {
    if a != [] && b != [] && c != [] && a[0] == b[0] && b[0] == c[0] {
      StrLeTransitive(a[1..], b[1..], c[1..]);
    }
  }
}
