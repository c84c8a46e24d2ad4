/**
  The Python string operations that discbot.py relies on: `find` (which answers
  -1 when the pattern is absent), slicing with negative bounds, `strip`,
  `split()` on runs of white space, `isdigit` and `int()` on text.
 */
module Py {
  import opened Wrappers
  import opened Strings

  /** The code points `str.isspace` accepts; `split()`, `strip()` and `int()` skip these. */
  predicate IsSpace(c: char)
  {
    || ('\t' <= c <= '\r') || ('\U{1C}' <= c <= '\U{1F}') || c == ' ' || c == '\U{85}'
    || c == '\U{A0}' || c == '\U{1680}' || ('\U{2000}' <= c <= '\U{200A}')
    || c == '\U{2028}' || c == '\U{2029}' || c == '\U{202F}' || c == '\U{205F}'
    || c == '\U{3000}'
  }

  /** A slice bound: a negative one counts from the end, then it is clamped into [0, len]. */
  function Bound(i: int, len: nat): (r: nat)
    ensures r <= len
    ensures 0 <= i <= len ==> r == i
    ensures -(len as int) <= i < 0 ==> r as int == len as int + i
    ensures i < -(len as int) ==> r == 0
    ensures i > len as int ==> r == len
  {
    if i < 0 then (if len + i < 0 then 0 else len + i) else if i > len then len else i
  }

  /** `s[i:]`. */
  function SliceFrom(s: string, i: int): (t: string)
    ensures 0 <= i <= |s| ==> t == s[i..]
    ensures -|s| <= i < 0 ==> t == s[|s| + i..]
    ensures i < -|s| ==> t == s
    ensures i > |s| ==> t == ""
  {
    s[Bound(i, |s|)..]
  }

  /** `s[:j]`; note that `s[:-1]` drops the last character. */
  function SliceTo(s: string, j: int): (t: string)
    ensures 0 <= j <= |s| ==> t == s[..j]
    ensures -|s| <= j < 0 ==> t == s[..|s| + j]
    ensures j < -|s| ==> t == ""
    ensures j > |s| ==> t == s
    ensures j == -1 && |s| > 0 ==> t == s[..|s| - 1]
  {
    s[..Bound(j, |s|)]
  }

  /** The first index at or after `i` that does not hold white space, or |s|. */
  function SpaceEnd(s: string, i: nat): (n: nat)
    requires i <= |s|
    ensures i <= n <= |s|
    ensures forall k :: i <= k < n ==> IsSpace(s[k])
    ensures n < |s| ==> !IsSpace(s[n])
    decreases |s| - i
  {
    if i < |s| && IsSpace(s[i]) then SpaceEnd(s, i + 1) else i
  }

  /** The index just after the last character before `j` that is not white space, or 0. */
  function SpaceStart(s: string, j: nat): (n: nat)
    requires j <= |s|
    ensures n <= j
    ensures forall k :: n <= k < j ==> IsSpace(s[k])
    ensures n > 0 ==> !IsSpace(s[n - 1])
    decreases j
  {
    if j > 0 && IsSpace(s[j - 1]) then SpaceStart(s, j - 1) else j
  }

  /** `s` is `r` with white space only before position `k` and after `r`. */
  predicate SpaceAround(s: string, r: string, k: nat)
  {
    && k + |r| <= |s| && s[k..k + |r|] == r
    && (forall i :: 0 <= i < k ==> IsSpace(s[i]))
    && (forall i :: k + |r| <= i < |s| ==> IsSpace(s[i]))
  }

  /**
    `s.strip()`: `s` with its leading and trailing white-space runs taken off, so that
    neither end of what is left is white space.
   */
  function Strip(s: string): (r: string)
    ensures |r| <= |s|
    ensures |r| > 0 ==> !IsSpace(r[0]) && !IsSpace(r[|r| - 1])
    ensures exists k :: SpaceAround(s, r, k)
  {
    var k := SpaceEnd(s, 0);
    var t := s[k..];
    var m := SpaceStart(t, |t|);
    assert SpaceAround(s, t[..m], k) by {
      forall i | k + m <= i < |s| ensures IsSpace(s[i]) {
        assert s[i] == t[i - k];
      }
    }
    t[..m]
  }

  /** What `strip()` keeps is a piece of the original text. */
  lemma StripIsInside(s: string)
    ensures Contains(s, Strip(s))
  {
    var k := SpaceEnd(s, 0);
    var t := s[k..];
    var u := t[..SpaceStart(t, |t|)];
    assert s[k..k + |u|] == u;
    OccurrenceFound(s, u, k);
  }

  /** Length of the run of non-space characters at the front of `s`. */
  function WordLength(s: string): (n: nat)
    ensures n <= |s|
    ensures forall i :: 0 <= i < n ==> !IsSpace(s[i])
    ensures n < |s| ==> IsSpace(s[n])
    decreases |s|
  {
    if |s| > 0 && !IsSpace(s[0]) then 1 + WordLength(s[1..]) else 0
  }

  /** The length of the front word is fixed by where its first white space stands. */
  lemma WordLengthAt(s: string, n: nat)
    requires n <= |s|
    requires forall i :: 0 <= i < n ==> !IsSpace(s[i])
    requires n < |s| ==> IsSpace(s[n])
    ensures WordLength(s) == n
  {
  }

  /** `s.split()`: the maximal runs of non-space characters, in order. */
  function Words(s: string): (words: seq<string>)
    ensures forall i :: 0 <= i < |words| ==> |words[i]| > 0
    ensures forall i, k :: 0 <= i < |words| && 0 <= k < |words[i]| ==> !IsSpace(words[i][k])
    decreases |s|
  {
    if |s| == 0 then []
    else if IsSpace(s[0]) then Words(s[1..])
    else
      var n := WordLength(s);
      [s[..n]] + Words(s[n..])
  }

  /** A white-space character separates: the words around it are the words of each side. */
  lemma {:induction false} WordsSplit(a: string, c: char, b: string)
    requires IsSpace(c)
    ensures Words(a + [c] + b) == Words(a) + Words(b)
    decreases |a|
  {
    var s := a + [c] + b;
    if |a| == 0 {
      assert s[1..] == b;
    } else if IsSpace(a[0]) {
      assert s[1..] == a[1..] + [c] + b;
      WordsSplit(a[1..], c, b);
    } else {
      var m := WordLength(a);
      WordLengthSeparated(a, c, b);
      assert s[..m] == a[..m];
      assert s[m..] == a[m..] + [c] + b;
      WordsSplit(a[m..], c, b);
    }
  }

  /** A white-space character after `a` ends the front word of `a` at the latest. */
  lemma WordLengthSeparated(a: string, c: char, b: string)
    requires IsSpace(c)
    ensures WordLength(a + [c] + b) == WordLength(a)
  {
    var s := a + [c] + b;
    var m := WordLength(a);
    assert forall i :: 0 <= i <= |a| ==> s[i] == if i < |a| then a[i] else c;
    WordLengthAt(s, m);
  }

  /** A non-empty text without white space is a single word. */
  lemma WordsSingle(w: string)
    requires |w| > 0
    requires forall i :: 0 <= i < |w| ==> !IsSpace(w[i])
    ensures Words(w) == [w]
  {
    WordLengthAt(w, |w|);
    assert w[..|w|] == w;
    assert Words(w[|w|..]) == [];
  }

  /** Where the first line break stands: nowhere before `n`, and at `n` unless there is none. */
  lemma FirstBreak(text: string)
    ensures var n := IndexOf(text, "\n");
      && (n == -1 ==> forall i :: 0 <= i < |text| ==> text[i] != '\n')
      && (n != -1 ==> 0 <= n < |text| && text[n] == '\n' && forall i :: 0 <= i < n ==> text[i] != '\n')
  {
    var n := IndexOf(text, "\n");
    IndexOfCharAbsent(text, '\n');
    if n != -1 {
      assert text[n..n + 1] == "\n";
      forall i | 0 <= i < n ensures text[i] != '\n' {
        OccursAtChar(text, '\n', i);
      }
    }
  }

  /**
    The shape of what `readlines()` gives: no line is empty, every line but the last
    ends in a line break, and no line holds a break before its last character.
   */
  predicate LineShaped(lines: seq<string>)
  {
    && (forall i :: 0 <= i < |lines| ==> |lines[i]| > 0)
    && (forall i :: 0 <= i < |lines| - 1 ==> lines[i][|lines[i]| - 1] == '\n')
    && (forall i, j :: 0 <= i < |lines| && 0 <= j < |lines[i]| - 1 ==> lines[i][j] != '\n')
  }

  /** A line that ends in its only break, put before lines of that shape, keeps the shape. */
  lemma LinesCons(first: string, rest: seq<string>)
    requires |first| > 0 && first[|first| - 1] == '\n'
    requires forall j :: 0 <= j < |first| - 1 ==> first[j] != '\n'
    requires LineShaped(rest)
    ensures LineShaped([first] + rest)
  {
    var lines := [first] + rest;
    assert forall i :: 1 <= i < |lines| ==> lines[i] == rest[i - 1];
  }

  /** `readlines()`: the text cut after every line break, each piece keeping its break. */
  function ReadLines(text: string): (lines: seq<string>)
    ensures Concat(lines) == text
    ensures LineShaped(lines)
    decreases |text|
  {
    if |text| == 0 then []
    else
      var n := IndexOf(text, "\n");
      FirstBreak(text);
      if n == -1 then
        assert [text][1..] == [];
        [text]
      else
        var first := text[..n + 1];
        var rest := ReadLines(text[n + 1..]);
        LinesCons(first, rest);
        assert ([first] + rest)[1..] == rest;
        assert first + text[n + 1..] == text;
        [first] + rest
  }

  /** Lines of the shape `readlines()` gives are exactly what `readlines()` gives back for their text. */
  lemma {:induction false} ReadLinesConcat(lines: seq<string>)
    requires LineShaped(lines)
    ensures ReadLines(Concat(lines)) == lines
    decreases |lines|
  {
    if |lines| > 0 {
      var first := lines[0];
      var rest := lines[1..];
      var text := Concat(lines);
      var m := |first| - 1;
      assert text == first + Concat(rest);
      assert forall i :: 0 <= i < |rest| ==> rest[i] == lines[i + 1];
      assert LineShaped(rest);
      assert forall j :: 0 <= j < m ==> text[j] == first[j] && first[j] != '\n';
      if first[m] == '\n' {
        assert '\n' !in text[..m] by {
          forall j | 0 <= j < m ensures text[..m][j] != '\n' { }
        }
        IndexOfChar(text, '\n', m);
        assert text[..m + 1] == first;
        assert text[m + 1..] == Concat(rest);
        ReadLinesConcat(rest);
      } else {
        assert |rest| == 0;
        assert text == first;
        IndexOfCharAbsent(text, '\n');
      }
    }
  }

  /**
    `readline()`: the first line with its break, or "" at the end of the file. It is a
    prefix of the text, and no line break comes before its last character.
   */
  function ReadLine(text: string): (r: string)
    ensures |r| <= |text| && r == text[..|r|]
    ensures r == "" <==> text == ""
    ensures forall i :: 0 <= i < |r| - 1 ==> r[i] != '\n'
    ensures |r| < |text| ==> r[|r| - 1] == '\n'
  {
    var lines := ReadLines(text);
    if |lines| == 0 then ""
    else
      assert |lines| == 1 ==> Concat(lines) == lines[0] by {
        if |lines| == 1 {
          assert lines[1..] == [];
        }
      }
      lines[0]
  }

  /** `s.isdigit()`, for ASCII digits. */
  predicate IsDigitString(s: string)
  {
    |s| > 0 && AllDigits(s)
  }

  /** Digits with single underscores between them, as `int()` accepts in base 10. */
  predicate IsDecimalLiteral(u: string)
  {
    && |u| > 0 && IsDigit(u[0]) && IsDigit(u[|u| - 1])
    && (forall i :: 0 <= i < |u| ==> IsDigit(u[i]) || u[i] == '_')
    && (forall i :: 0 <= i < |u| - 1 ==> !(u[i] == '_' && u[i + 1] == '_'))
  }

  /** The number a decimal literal writes, underscores ignored; None when `u` is not one. */
  function LiteralValue(u: string): (r: Option<nat>)
  {
    if IsDecimalLiteral(u) then
      var digits := Without(u, '_');
      assert AllDigits(digits) by {
        forall i | 0 <= i < |digits| ensures IsDigit(digits[i]) {
          assert digits[i] in u;
        }
      }
      Some(DecimalValue(digits))
    else None
  }

  /**
    `int(s)` for a string: white space around it ignored, an optional sign, then a
    decimal literal; None stands for the ValueError raised on anything else.
   */
  function Int(s: string): (r: Option<int>)
    ensures (forall i :: 0 <= i < |s| ==> IsSpace(s[i])) ==> r.None?
    ensures r.Some? && r.value < 0 ==> |Strip(s)| > 0 && Strip(s)[0] == '-'
  {
    var t := Strip(s);
    var negative := |t| > 0 && t[0] == '-';
    var u := if |t| > 0 && (t[0] == '-' || t[0] == '+') then t[1..] else t;
    match LiteralValue(u)
    case None => None
    case Some(m) => Some(if negative then -(m as int) else m as int)
  }

  /** Removing a character that does not occur changes nothing. */
  lemma {:induction false} WithoutAbsent(s: string, c: char)
    requires c !in s
    ensures Without(s, c) == s
  {
    if |s| > 0 {
      WithoutAbsent(s[1..], c);
      assert [s[0]] + s[1..] == s;
    }
  }

  /** A run of digits is a decimal literal that writes its decimal value. */
  lemma LiteralOfDigits(d: string)
    requires |d| > 0 && AllDigits(d)
    ensures LiteralValue(d) == Some(DecimalValue(d))
  {
    assert IsDecimalLiteral(d);
    WithoutAbsent(d, '_');
  }

  /** Stripping a line break after text that has no white space at its ends leaves that text. */
  lemma StripLine(d: string)
    requires |d| > 0 && !IsSpace(d[0]) && !IsSpace(d[|d| - 1])
    ensures Strip(d + "\n") == d
  {
    var s := d + "\n";
    assert SpaceEnd(s, 0) == 0 by { assert s[0] == d[0]; }
    assert s[0..] == s;
    assert SpaceStart(s, |s|) == |d| by {
      assert IsSpace(s[|s| - 1]) && s[|d| - 1] == d[|d| - 1];
    }
    assert s[..|d|] == d;
  }

  /** `int()` of text that strips to a literal with no sign is that literal. */
  lemma IntOfUnsigned(s: string, t: string, v: nat)
    requires Strip(s) == t && |t| > 0 && t[0] != '-' && t[0] != '+' && LiteralValue(t) == Some(v)
    ensures Int(s) == Some(v as int)
  {
  }

  /** `int()` of text that strips to a minus sign and a literal is the negated literal. */
  lemma IntOfSigned(s: string, t: string, v: nat)
    requires Strip(s) == t && |t| > 0 && t[0] == '-' && LiteralValue(t[1..]) == Some(v)
    ensures Int(s) == Some(-(v as int))
  {
  }

  /** `int()` reads a run of digits followed by a line break, with or without a minus sign, as the number it writes. */
  lemma IntOfDecimalLine(d: string, v: nat)
    requires |d| > 0 && AllDigits(d) && DecimalValue(d) == v
    ensures Int(d + "\n") == Some(v as int)
    ensures Int("-" + d + "\n") == Some(-(v as int))
  {
    LiteralOfDigits(d);
    StripLine(d);
    assert IsDigit(d[0]);
    IntOfUnsigned(d + "\n", d, v);
    var t := "-" + d;
    assert t[|t| - 1] == d[|d| - 1];
    StripLine(t);
    assert t[1..] == d;
    IntOfSigned(t + "\n", t, v);
  }

  /** `int(str(v) + "\n")` gives back `v`: a value written as a config line reads back. */
  lemma IntOfRenderedLine(v: int)
    ensures Int(IntToDecimal(v) + "\n") == Some(v)
  {
    var m: nat := if v < 0 then -v else v;
    DecimalValueOfRendering(m);
    IntOfDecimalLine(NatToDecimal(m), m);
  }
}
