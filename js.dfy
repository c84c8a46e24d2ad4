/**
  The JavaScript String and Number operations that bot.js relies on, with the
  index conventions of the language: `substring` clamps and swaps its bounds,
  `slice` counts negative bounds from the end, `indexOf` clamps its start
  position, `parseInt` reads the longest numeric prefix.
 */
module Js {
  import opened Wrappers
  import opened Strings

  /** An index argument clamped into [0, len]. */
  function Clamp(i: int, len: nat): (r: nat)
    ensures r <= len
    ensures 0 <= i <= len ==> r == i
  {
    if i < 0 then 0 else if i > len then len else i
  }

  /** `s.substring(start, end)`: both bounds clamped into [0, |s|] and swapped when start > end. */
  function Substring(s: string, start: int, end: int): (t: string)
    ensures 0 <= start <= end <= |s| ==> t == s[start..end]
    ensures |t| <= |s|
  {
    var a, b := Clamp(start, |s|), Clamp(end, |s|);
    if a <= b then s[a..b] else s[b..a]
  }

  /** `s.substring(start)`. */
  function SubstringFrom(s: string, start: int): (t: string)
    ensures 0 <= start <= |s| ==> t == s[start..]
    ensures start < 0 ==> t == s
    ensures start > |s| ==> t == ""
  {
    s[Clamp(start, |s|)..]
  }

  /** `s.substring(start)` is `s.substring(start, s.length)`. */
  lemma SubstringFromIsSubstring(s: string, start: int)
    ensures SubstringFrom(s, start) == Substring(s, start, |s|)
  {
  }

  /** `s.substring(0, end)`: the prefix up to the clamped end. */
  function SubstringTo(s: string, end: int): (t: string)
    ensures 0 <= end <= |s| ==> t == s[..end]
    ensures end < 0 ==> t == ""
    ensures end > |s| ==> t == s
  {
    s[..Clamp(end, |s|)]
  }

  /** `s.substring(0, end)` is the general `substring` with a start of 0. */
  lemma SubstringToIsSubstring(s: string, end: int)
    ensures SubstringTo(s, end) == Substring(s, 0, end)
  {
  }

  /** The text `Substring` returns always stands in `s` at the lower clamped bound. */
  lemma SubstringStands(s: string, start: int, end: int)
    ensures var a, b := Clamp(start, |s|), Clamp(end, |s|);
      OccursAt(s, Substring(s, start, end), if a <= b then a else b)
  {
  }

  /** `s.indexOf(p, from)`: the search start is clamped into [0, |s|]. */
  function IndexOfFrom(s: string, p: string, from: int): int
  {
    IndexFrom(s, p, Clamp(from, |s|))
  }

  /** A slice bound: a negative one counts from the end, then it is clamped into [0, len]. */
  function SliceBound(i: int, len: nat): nat
  {
    if i < 0 then Clamp(len + i, len) else Clamp(i, len)
  }

  /** `s.slice(start, end)`: empty when the resolved end does not exceed the resolved start. */
  function Slice(s: string, start: int, end: int): (t: string)
    ensures |t| <= |s|
    ensures start == 1 && end == -1 ==> t == if |s| >= 2 then s[1..|s| - 1] else ""
  {
    var a, b := SliceBound(start, |s|), SliceBound(end, |s|);
    if a < b then s[a..b] else ""
  }

  /** WhiteSpace and LineTerminator code points of ECMAScript, which `trim` and `parseInt` skip. */
  predicate IsSpace(c: char)
  {
    || c == '\t' || c == '\n' || c == '\U{B}' || c == '\U{C}' || c == '\r' || c == ' '
    || c == '\U{A0}' || c == '\U{1680}' || ('\U{2000}' <= c <= '\U{200A}')
    || c == '\U{2028}' || c == '\U{2029}' || c == '\U{202F}' || c == '\U{205F}'
    || c == '\U{3000}' || c == '\U{FEFF}'
  }

  /** The first index at or after `i` that does not hold white space, or |s|. */
  function SpaceEnd(s: string, i: nat): (n: nat)
    requires i <= |s|
    ensures i <= n <= |s|
    decreases |s| - i
  {
    if i < |s| && IsSpace(s[i]) then SpaceEnd(s, i + 1) else i
  }

  /** The index just after the last character before `j` that is not white space, or 0. */
  function SpaceStart(s: string, j: nat): (n: nat)
    requires j <= |s|
    ensures n <= j
    decreases j
  {
    if j > 0 && IsSpace(s[j - 1]) then SpaceStart(s, j - 1) else j
  }

  /** `SpaceEnd` skips exactly the white space that follows `i`. */
  lemma {:induction false} SpaceEndIsRun(s: string, i: nat)
    requires i <= |s|
    ensures forall k :: i <= k < SpaceEnd(s, i) ==> IsSpace(s[k])
    ensures SpaceEnd(s, i) < |s| ==> !IsSpace(s[SpaceEnd(s, i)])
    decreases |s| - i
  {
    if i < |s| && IsSpace(s[i]) {
      SpaceEndIsRun(s, i + 1);
    }
  }

  /** `SpaceStart` skips exactly the white space that precedes `j`. */
  lemma {:induction false} SpaceStartIsRun(s: string, j: nat)
    requires j <= |s|
    ensures forall k :: SpaceStart(s, j) <= k < j ==> IsSpace(s[k])
    ensures SpaceStart(s, j) > 0 ==> !IsSpace(s[SpaceStart(s, j) - 1])
    decreases j
  {
    if j > 0 && IsSpace(s[j - 1]) {
      SpaceStartIsRun(s, j - 1);
    }
  }

  /** `s.trimStart()`. */
  function TrimStart(s: string): string
  {
    s[SpaceEnd(s, 0)..]
  }

  /** `s.trimEnd()`. */
  function TrimEnd(s: string): string
  {
    s[..SpaceStart(s, |s|)]
  }

  /** `s.trim()`: no longer than `s`, and neither end of what is left is white space. */
  function Trim(s: string): (r: string)
    ensures |r| <= |s|
    ensures |r| > 0 ==> !IsSpace(r[0]) && !IsSpace(r[|r| - 1])
  {
    SpaceEndIsRun(s, 0);
    var t := TrimStart(s);
    SpaceStartIsRun(t, |t|);
    TrimEnd(t)
  }

  /** Trimming text that starts and ends with a non-space character changes nothing. */
  lemma TrimUntouched(s: string)
    requires |s| > 0 && !IsSpace(s[0]) && !IsSpace(s[|s| - 1])
    ensures Trim(s) == s
  {
    assert SpaceEnd(s, 0) == 0;
    assert s[0..] == s;
    assert SpaceStart(s, |s|) == |s|;
  }

  /** White space between `k` and `j` after a character that is not white space is skipped whole. */
  lemma {:induction false} SpaceStartAfter(s: string, k: nat, j: nat)
    requires 0 < k <= j <= |s| && !IsSpace(s[k - 1])
    requires forall i :: k <= i < j ==> IsSpace(s[i])
    ensures SpaceStart(s, j) == k
    decreases j
  {
    if j > k {
      SpaceStartAfter(s, k, j - 1);
    }
  }

  /** Trimming drops trailing white space after text whose ends are not white space. */
  lemma TrimTrailing(s: string, w: string)
    requires |s| > 0 && !IsSpace(s[0]) && !IsSpace(s[|s| - 1])
    requires forall i :: 0 <= i < |w| ==> IsSpace(w[i])
    ensures Trim(s + w) == s
  {
    var t := s + w;
    assert SpaceEnd(t, 0) == 0 by { assert t[0] == s[0]; }
    assert TrimStart(t) == t;
    SpaceStartAfter(t, |s|, |t|);
    assert t[..|s|] == s;
  }

  /** The value of `c` as a digit in base `radix` (10 or 16), or -1 when it is not one. */
  function RadixDigit(c: char, radix: nat): (d: int)
    ensures d < radix
    ensures radix == 10 ==> (d >= 0 <==> IsDigit(c))
    ensures radix == 10 && IsDigit(c) ==> d == DigitValue(c)
  {
    if '0' <= c <= '9' && c as int - '0' as int < radix then c as int - '0' as int
    else if radix == 16 && 'a' <= c <= 'f' then c as int - 'a' as int + 10
    else if radix == 16 && 'A' <= c <= 'F' then c as int - 'A' as int + 10
    else -1
  }

  /** The first index at or after `i` that does not hold a base-`radix` digit, or |s|. */
  function DigitEnd(s: string, i: nat, radix: nat): (n: nat)
    requires i <= |s|
    ensures i <= n <= |s|
    decreases |s| - i
  {
    if i < |s| && RadixDigit(s[i], radix) >= 0 then DigitEnd(s, i + 1, radix) else i
  }

  /** `DigitEnd` passes exactly the digits that follow `i`. */
  lemma {:induction false} DigitEndIsRun(s: string, i: nat, radix: nat)
    requires i <= |s|
    ensures forall k :: i <= k < DigitEnd(s, i, radix) ==> RadixDigit(s[k], radix) >= 0
    ensures DigitEnd(s, i, radix) < |s| ==> RadixDigit(s[DigitEnd(s, i, radix)], radix) < 0
    decreases |s| - i
  {
    if i < |s| && RadixDigit(s[i], radix) >= 0 {
      DigitEndIsRun(s, i + 1, radix);
    }
  }

  /** The number the base-`radix` digits `s[from..upTo]` write, most significant first. */
  function RadixValue(s: string, from: nat, upTo: nat, radix: nat): nat
    requires from <= upTo <= |s|
    requires forall k :: from <= k < upTo ==> RadixDigit(s[k], radix) >= 0
    decreases upTo
  {
    if upTo == from then 0
    else radix * RadixValue(s, from, upTo - 1, radix) + RadixDigit(s[upTo - 1], radix)
  }

  /** The number the longest run of base-`radix` digits at index `from` writes; None when there is none. */
  function LeadingNumber(s: string, from: nat, radix: nat): Option<nat>
    requires from <= |s|
  {
    var n := DigitEnd(s, from, radix);
    DigitEndIsRun(s, from, radix);
    if n == from then None else Some(RadixValue(s, from, n, radix))
  }

  /**
    The unsigned part of `parseInt`: a `0x`/`0X` prefix selects base 16, then the
    longest run of digits is read; None when that run is empty.
   */
  function ParseMagnitude(u: string): Option<nat>
  {
    if |u| >= 2 && u[0] == '0' && (u[1] == 'x' || u[1] == 'X') then LeadingNumber(u, 2, 16)
    else LeadingNumber(u, 0, 10)
  }

  /**
    `parseInt(s)` with no radix: leading white space skipped, an optional sign,
    then the magnitude; None stands for NaN.
   */
  function ParseInt(s: string): (r: Option<int>)
    ensures (forall i :: 0 <= i < |s| ==> IsSpace(s[i])) ==> r.None?
    ensures r.Some? && r.value < 0 ==> |TrimStart(s)| > 0 && TrimStart(s)[0] == '-'
  {
    SpaceEndIsRun(s, 0);
    var t := TrimStart(s);
    var negative := |t| > 0 && t[0] == '-';
    var u := if |t| > 0 && (t[0] == '-' || t[0] == '+') then t[1..] else t;
    match ParseMagnitude(u)
    case None => None
    case Some(m) => Some(if negative then -(m as int) else m as int)
  }

  /** Base 10 digits read the same as decimal text. */
  lemma {:induction false} RadixTenIsDecimal(s: string, upTo: nat)
    requires upTo <= |s| && AllDigits(s)
    ensures forall k :: 0 <= k < upTo ==> RadixDigit(s[k], 10) >= 0
    ensures RadixValue(s, 0, upTo, 10) == DecimalValue(s[..upTo])
    decreases upTo
  {
    if upTo > 0 {
      RadixTenIsDecimal(s, upTo - 1);
      assert s[..upTo][..upTo - 1] == s[..upTo - 1];
    }
  }

  /** Every character of a run of decimal digits is passed. */
  lemma {:induction false} DigitsRunWhole(d: string, i: nat)
    requires i <= |d| && AllDigits(d)
    ensures DigitEnd(d, i, 10) == |d|
    decreases |d| - i
  {
    if i < |d| {
      DigitsRunWhole(d, i + 1);
    }
  }

  /** A run of decimal digits is read as the number it writes. */
  lemma MagnitudeOfDigits(d: string)
    requires |d| > 0 && AllDigits(d)
    ensures ParseMagnitude(d) == Some(DecimalValue(d))
  {
    assert !(|d| >= 2 && d[0] == '0' && (d[1] == 'x' || d[1] == 'X')) by {
      if |d| >= 2 { assert IsDigit(d[1]); }
    }
    DigitsRunWhole(d, 0);
    RadixTenIsDecimal(d, |d|);
    assert d[..|d|] == d;
  }

  /** Text that starts with neither white space nor a sign is read as a magnitude. */
  lemma ParseIntUnsigned(t: string)
    requires |t| > 0 && !IsSpace(t[0]) && t[0] != '-' && t[0] != '+'
    ensures ParseInt(t) == match ParseMagnitude(t) case None => None case Some(m) => Some(m as int)
  {
    assert SpaceEnd(t, 0) == 0;
    assert t[0..] == t;
  }

  /** A minus sign followed by text negates the magnitude the text is read as. */
  lemma ParseIntMinus(u: string)
    ensures ParseInt("-" + u) == match ParseMagnitude(u) case None => None case Some(m) => Some(-(m as int))
  {
    var t := "-" + u;
    assert SpaceEnd(t, 0) == 0 by { assert t[0] == '-'; }
    assert t[0..] == t;
    assert t[1..] == u;
  }

  /** `parseInt` reads a run of digits, with or without a minus sign, as the number it writes. */
  lemma ParseIntDecimal(d: string, v: nat)
    requires |d| > 0 && AllDigits(d) && DecimalValue(d) == v
    ensures ParseInt(d) == Some(v as int) && ParseInt("-" + d) == Some(-(v as int))
  {
    MagnitudeOfDigits(d);
    assert IsDigit(d[0]);
    ParseIntUnsigned(d);
    ParseIntMinus(d);
  }

  /** `parseInt` reads back the decimal rendering of every integer. */
  lemma ParseIntRendering(n: int)
    ensures ParseInt(IntToDecimal(n)) == Some(n)
  {
    var m: nat := if n < 0 then -n else n;
    DecimalValueOfRendering(m);
    ParseIntDecimal(NatToDecimal(m), m);
  }
}
