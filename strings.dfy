/**
  String operations that both sources use with the same meaning: searching for a
  marker, cutting on a separator, replacing, ASCII case folding and decimal
  rendering of integers. Strings are sequences of Unicode code points.
 */
module Strings {

  /** `p` occurs in `s` starting at index `i`. */
  predicate OccursAt(s: string, p: string, i: int)
  {
    0 <= i && i + |p| <= |s| && s[i..i + |p|] == p
  }

  /** Index of the first occurrence of `p` in `s` at or after `from`, or -1. */
  function IndexFrom(s: string, p: string, from: nat): (r: int)
    decreases |s| - from
    ensures r == -1 || (from <= r && OccursAt(s, p, r))
    ensures r == -1 ==> forall i :: from <= i ==> !OccursAt(s, p, i)
    ensures r != -1 ==> forall i :: from <= i < r ==> !OccursAt(s, p, i)
  {
    if from + |p| > |s| then -1
    else if s[from..from + |p|] == p then from
    else IndexFrom(s, p, from + 1)
  }

  /** Index of the first occurrence of `p` in `s`, or -1. */
  function IndexOf(s: string, p: string): int
  {
    IndexFrom(s, p, 0)
  }

  predicate Contains(s: string, p: string)
  {
    IndexOf(s, p) != -1
  }

  /** An occurrence found anywhere means `Contains`, and the first one is no later. */
  lemma OccurrenceFound(s: string, p: string, i: int)
    requires OccursAt(s, p, i)
    ensures Contains(s, p) && 0 <= IndexOf(s, p) <= i
  {
  }

  /** Text placed between two others occurs in the result. */
  lemma ContainsMiddle(a: string, p: string, b: string)
    ensures Contains(a + p + b, p)
  {
    var s := a + p + b;
    assert s[|a|..|a| + |p|] == p;
    OccurrenceFound(s, p, |a|);
  }

  /** A text containing `p + q` contains `p`: a longer option never needs its own test. */
  lemma ContainsPrefixPart(s: string, p: string, q: string)
    ensures Contains(s, p + q) ==> Contains(s, p)
  {
    if Contains(s, p + q) {
      var i := IndexOf(s, p + q);
      assert s[i..i + |p|] == (p + q)[..|p|] == p;
      OccurrenceFound(s, p, i);
    }
  }

  /** The first occurrence is pinned down by one occurrence and the absence of earlier ones. */
  lemma FirstOccurrence(s: string, p: string, from: nat, k: int)
    requires from <= k && OccursAt(s, p, k)
    requires forall i :: from <= i < k ==> !OccursAt(s, p, i)
    ensures IndexFrom(s, p, from) == k
  {
  }

  /** Occurrences in a suffix are occurrences in the whole text, shifted by the cut. */
  lemma OccursShift(s: string, p: string, m: nat, j: int)
    requires m <= |s|
    ensures OccursAt(s[m..], p, j) <==> j >= 0 && OccursAt(s, p, j + m)
  {
    if 0 <= j && j + |p| <= |s| - m {
      assert s[m..][j..j + |p|] == s[j + m..j + m + |p|];
    }
  }

  /** Searching a suffix finds the first occurrence at or after the cut, moved back by the cut. */
  lemma IndexOfSuffix(s: string, p: string, m: nat)
    requires m <= |s|
    ensures var k := IndexFrom(s, p, m);
      IndexOf(s[m..], p) == if k == -1 then -1 else k - m
  {
    var k := IndexFrom(s, p, m);
    var r := IndexOf(s[m..], p);
    if k == -1 {
      if r != -1 {
        OccursShift(s, p, m, r);
        assert false;
      }
    } else {
      OccursShift(s, p, m, k - m);
      forall i | 0 <= i < k - m ensures !OccursAt(s[m..], p, i) {
        OccursShift(s, p, m, i);
      }
      FirstOccurrence(s[m..], p, 0, k - m);
    }
  }

  /** A stretch of `s` in which no occurrence of a non-empty `p` starts does not contain `p`. */
  lemma AbsentBetween(s: string, p: string, from: nat, to: nat)
    requires |p| > 0 && from <= to <= |s|
    requires forall i :: from <= i < to ==> !OccursAt(s, p, i)
    ensures !Contains(s[from..to], p)
  {
    var t := s[from..to];
    if Contains(t, p) {
      var j := IndexOf(t, p);
      assert t[j..j + |p|] == s[from + j..from + j + |p|];
      assert OccursAt(s, p, from + j);
    }
  }

  /** A pattern whose first character is absent from `s` does not occur in `s`. */
  lemma AbsentLead(s: string, p: string)
    requires |p| > 0 && p[0] !in s
    ensures !Contains(s, p)
  {
  }

  /** A one-character pattern occurs exactly where that character stands. */
  lemma OccursAtChar(s: string, c: char, i: int)
    ensures OccursAt(s, [c], i) <==> 0 <= i < |s| && s[i] == c
  {
    if 0 <= i < |s| {
      assert s[i..i + 1] == [s[i]];
    }
  }

  /** A one-character pattern is found at the first index holding that character. */
  lemma IndexOfChar(s: string, c: char, k: int)
    requires 0 <= k < |s| && s[k] == c && c !in s[..k]
    ensures IndexOf(s, [c]) == k
  {
    OccursAtChar(s, c, k);
    forall i | 0 <= i < k ensures !OccursAt(s, [c], i) {
      OccursAtChar(s, c, i);
      assert s[..k][i] == s[i];
    }
    FirstOccurrence(s, [c], 0, k);
  }

  /** A one-character pattern is absent exactly when that character is. */
  lemma IndexOfCharAbsent(s: string, c: char)
    ensures IndexOf(s, [c]) == -1 <==> c !in s
  {
    if c in s {
      var k :| 0 <= k < |s| && s[k] == c;
      OccursAtChar(s, c, k);
    } else {
      forall i ensures !OccursAt(s, [c], i) { OccursAtChar(s, c, i); }
    }
  }

  /** `s` begins with `p`. */
  predicate StartsWith(s: string, p: string)
  {
    |p| <= |s| && s[..|p|] == p
  }

  /** `s` with its first occurrence of `p` replaced by `r` (nothing changes when `p` is absent). */
  function ReplaceFirst(s: string, p: string, r: string): (t: string)
    ensures !Contains(s, p) ==> t == s
    ensures Contains(s, p) ==>
      var i := IndexOf(s, p); t == s[..i] + r + s[i + |p|..]
    ensures |r| <= |p| ==> |t| <= |s|
    ensures |r| == |p| ==> |t| == |s|
  {
    var i := IndexOf(s, p);
    if i == -1 then s else s[..i] + r + s[i + |p|..]
  }

  /** Replacing the first occurrence of `p` in `a + p + b`, where `p` does not start inside `a`. */
  lemma ReplaceFirstAt(a: string, p: string, b: string, r: string)
    requires forall i :: 0 <= i < |a| ==> !OccursAt(a + p + b, p, i)
    ensures ReplaceFirst(a + p + b, p, r) == a + r + b
  {
    var s := a + p + b;
    assert s[|a|..|a| + |p|] == p;
    FirstOccurrence(s, p, 0, |a|);
    assert s[..|a|] == a;
    assert s[|a| + |p|..] == b;
  }

  /** Replacing the first occurrence of a character `c` in `a + [c] + b` when `c` is not in `a`. */
  lemma ReplaceFirstChar(a: string, c: char, b: string, r: string)
    requires c !in a
    ensures ReplaceFirst(a + [c] + b, [c], r) == a + r + b
  {
    forall i | 0 <= i < |a| ensures !OccursAt(a + [c] + b, [c], i) {
      OccursAtChar(a + [c] + b, c, i);
      assert (a + [c] + b)[i] == a[i];
    }
    ReplaceFirstAt(a, [c], b, r);
  }

  /** In a one-character frame, occurrences that touch neither frame are those of the framed text, shifted by one. */
  lemma OccursFramed(c: char, s: string, d: char, p: string, i: int)
    requires |p| > 0 && p[0] != c && p[|p| - 1] != d
    ensures OccursAt([c] + s + [d], p, i) <==> i >= 1 && OccursAt(s, p, i - 1)
  {
    var q := [c] + s + [d];
    if OccursAt(q, p, i) {
      assert q[i..i + |p|][0] == q[i];
      assert i != 0;
      assert q[i..i + |p|][|p| - 1] == q[i + |p| - 1];
      assert i + |p| < |q|;
      assert s[i - 1..i - 1 + |p|] == q[i..i + |p|];
    }
    if i >= 1 && OccursAt(s, p, i - 1) {
      assert s[i - 1..i - 1 + |p|] == q[i..i + |p|];
    }
  }

  /** A frame the pattern can neither start nor end on adds no occurrence. */
  lemma FramedAbsent(c: char, s: string, d: char, p: string)
    requires |p| > 0 && p[0] != c && p[|p| - 1] != d && !Contains(s, p)
    ensures !Contains([c] + s + [d], p)
  {
    var q := [c] + s + [d];
    if Contains(q, p) {
      OccursFramed(c, s, d, p, IndexOf(q, p));
      OccurrenceFound(s, p, IndexOf(q, p) - 1);
    }
  }

  /** Inside such a frame, the first replace of an occurrence that starts nowhere in `a` keeps the frame. */
  lemma FramedAt(c: char, a: string, p: string, b: string, d: char, r: string)
    requires |p| > 0 && p[0] != c && p[|p| - 1] != d
    requires forall i :: 0 <= i < |a| ==> !OccursAt(a + p + b, p, i)
    ensures ReplaceFirst([c] + (a + p + b) + [d], p, r) == [c] + (a + r + b) + [d]
  {
    var s, q := a + p + b, ([c] + a) + p + (b + [d]);
    assert q == [c] + s + [d];
    forall i | 0 <= i < |[c] + a| ensures !OccursAt(q, p, i) {
      OccursFramed(c, s, d, p, i);
    }
    ReplaceFirstAt([c] + a, p, b + [d], r);
  }

  /**
    A first replace inside a one-character frame acts on the framed text alone, when
    the pattern can neither start on the left frame nor end on the right one.
   */
  lemma ReplaceFirstInside(c: char, s: string, d: char, p: string, r: string)
    requires |p| > 0 && p[0] != c && p[|p| - 1] != d
    ensures ReplaceFirst([c] + s + [d], p, r) == [c] + ReplaceFirst(s, p, r) + [d]
  {
    if !Contains(s, p) {
      FramedAbsent(c, s, d, p);
    } else {
      var k := IndexOf(s, p);
      var a, b := s[..k], s[k + |p|..];
      assert s == a + p + b;
      FramedAt(c, a, p, b, d, r);
    }
  }

  /**
    Every non-overlapping occurrence of `p` in `s`, scanning from the left, replaced by `r`:
    the meaning of a global regular-expression replace with a literal pattern.
   */
  function ReplaceAll(s: string, p: string, r: string): (t: string)
    requires |p| > 0
    decreases |s|
  {
    if |s| < |p| then s
    else if s[..|p|] == p then r + ReplaceAll(s[|p|..], p, r)
    else [s[0]] + ReplaceAll(s[1..], p, r)
  }

  /** A global replace by text no longer than the pattern never lengthens the text. */
  lemma {:induction false} ReplaceAllShrinks(s: string, p: string, r: string)
    requires |p| > 0 && |r| <= |p|
    ensures |ReplaceAll(s, p, r)| <= |s|
    decreases |s|
  {
    if |s| >= |p| {
      if s[..|p|] == p {
        ReplaceAllShrinks(s[|p|..], p, r);
      } else {
        ReplaceAllShrinks(s[1..], p, r);
      }
    }
  }

  /** A global replace leaves a string in which the pattern never occurs unchanged. */
  lemma {:induction false} ReplaceAllAbsent(s: string, p: string, r: string)
    requires |p| > 0 && !Contains(s, p)
    ensures ReplaceAll(s, p, r) == s
  {
    if |s| >= |p| {
      assert !OccursAt(s, p, 0);
      assert !Contains(s[1..], p) by {
        forall i ensures !OccursAt(s[1..], p, i) {
          if OccursAt(s[1..], p, i) {
            assert s[i + 1..i + 1 + |p|] == s[1..][i..i + |p|];
            assert OccursAt(s, p, i + 1);
            assert false;
          }
        }
      }
      ReplaceAllAbsent(s[1..], p, r);
    }
  }

  /** The global replace at a text that starts with the pattern, and at one that does not. */
  lemma ReplaceAllStep(s: string, p: string, r: string)
    requires |p| > 0 && |s| > 0
    ensures OccursAt(s, p, 0) ==> ReplaceAll(s, p, r) == r + ReplaceAll(s[|p|..], p, r)
    ensures !OccursAt(s, p, 0) ==> ReplaceAll(s, p, r) == [s[0]] + ReplaceAll(s[1..], p, r)
  {
  }

  /** The global replace of `a + p + b`, where `p` does not start inside `a`, keeps `a` and replaces that `p`. */
  lemma {:induction false} ReplaceAllAt(a: string, p: string, b: string, r: string)
    requires |p| > 0
    requires forall i :: 0 <= i < |a| ==> !OccursAt(a + p + b, p, i)
    ensures ReplaceAll(a + p + b, p, r) == a + r + ReplaceAll(b, p, r)
    decreases |a|
  {
    var s := a + p + b;
    ReplaceAllStep(s, p, r);
    if |a| == 0 {
      assert s == p + b && s[..|p|] == p;
      assert OccursAt(s, p, 0);
      assert s[|p|..] == b;
    } else {
      assert !OccursAt(s, p, 0);
      var a' := a[1..];
      assert s[1..] == a' + p + b;
      forall i | 0 <= i < |a'| ensures !OccursAt(a' + p + b, p, i) {
        OccursShift(s, p, 1, i);
      }
      ReplaceAllAt(a', p, b, r);
      assert [s[0]] + a' == a;
    }
  }

  /**
    The global replace works from the left and does not rescan what it inserted: the
    text before the first occurrence is kept, the occurrence replaced, and the rest
    replaced in turn.
   */
  lemma ReplaceAllFirst(s: string, p: string, r: string)
    requires |p| > 0 && Contains(s, p)
    ensures var i := IndexOf(s, p);
      ReplaceAll(s, p, r) == s[..i] + r + ReplaceAll(s[i + |p|..], p, r)
  {
    var i := IndexOf(s, p);
    var a, b := s[..i], s[i + |p|..];
    assert s == a + p + b;
    forall j | 0 <= j < |a| ensures !OccursAt(a + p + b, p, j) {
    }
    ReplaceAllAt(a, p, b, r);
  }

  /** `s` without any occurrence of the character `c`. */
  function Without(s: string, c: char): (t: string)
    ensures c !in t
    ensures forall x :: x != c ==> (x in t <==> x in s)
    ensures |t| <= |s|
  {
    if |s| == 0 then ""
    else if s[0] == c then Without(s[1..], c)
    else [s[0]] + Without(s[1..], c)
  }

  /** Deleting a character works piece by piece, so every other character keeps its place in the order. */
  lemma {:induction false} WithoutAppend(a: string, b: string, c: char)
    ensures Without(a + b, c) == Without(a, c) + Without(b, c)
    ensures forall x: char :: Without([x], c) == if x == c then "" else [x]
    decreases |a|
  {
    if |a| > 0 {
      assert (a + b)[1..] == a[1..] + b;
      WithoutAppend(a[1..], b, c);
    } else {
      assert a + b == b;
    }
    forall x: char ensures Without([x], c) == if x == c then "" else [x] {
      assert [x][1..] == [];
    }
  }

  /** Globally replacing a one-character pattern by nothing deletes every occurrence of that character. */
  lemma {:induction false} ReplaceAllCharByNothing(s: string, c: char)
    ensures ReplaceAll(s, [c], "") == Without(s, c)
  {
    if |s| > 0 {
      assert s[..1] == [s[0]];
      ReplaceAllCharByNothing(s[1..], c);
    }
  }

  /**
    The pieces of `s` between occurrences of `sep` (JavaScript `split` with a
    one-character separator): always at least one piece, possibly empty.
   */
  function Split(s: string, sep: char): (parts: seq<string>)
    ensures |parts| >= 1
    ensures forall i :: 0 <= i < |parts| ==> sep !in parts[i]
    decreases |s|
  {
    if |s| == 0 then [""]
    else
      var rest := Split(s[1..], sep);
      if s[0] == sep then [""] + rest else [[s[0]] + rest[0]] + rest[1..]
  }

  /** The pieces glued back together with `sep` between neighbours. */
  function Join(parts: seq<string>, sep: string): string
    decreases |parts|
  {
    if |parts| == 0 then ""
    else if |parts| == 1 then parts[0]
    else parts[0] + sep + Join(parts[1..], sep)
  }

  /** Splitting then joining with the same separator gives back the original text. */
  lemma {:induction false} JoinSplit(s: string, sep: char)
    ensures Join(Split(s, sep), [sep]) == s
  {
    if |s| > 0 {
      var rest := Split(s[1..], sep);
      JoinSplit(s[1..], sep);
      if s[0] == sep {
        assert Split(s, sep) == [""] + rest;
        assert ([""] + rest)[1..] == rest;
      } else {
        var parts := [[s[0]] + rest[0]] + rest[1..];
        if |rest| == 1 {
          assert Join(rest, [sep]) == rest[0];
        } else {
          assert Join(rest, [sep]) == rest[0] + [sep] + Join(rest[1..], [sep]);
          assert parts[1..] == rest[1..];
        }
      }
    }
  }

  /** The pieces glued back together with nothing between them. */
  function Concat(parts: seq<string>): string
    decreases |parts|
  {
    if |parts| == 0 then "" else parts[0] + Concat(parts[1..])
  }

  /** Concatenation distributes over a split of the list of pieces. */
  lemma {:induction false} ConcatAppend(a: seq<string>, b: seq<string>)
    ensures Concat(a + b) == Concat(a) + Concat(b)
  {
    if |a| > 0 {
      assert (a + b)[1..] == a[1..] + b;
      ConcatAppend(a[1..], b);
    } else {
      assert a + b == b;
    }
  }

  /** A leading piece free of the separator comes off the split unchanged. */
  lemma {:induction false} SplitAfter(a: string, sep: char, b: string)
    requires sep !in a
    ensures Split(a + [sep] + b, sep) == [a] + Split(b, sep)
  {
    if |a| == 0 {
      assert a + [sep] + b == [sep] + b;
      assert ([sep] + b)[1..] == b;
    } else {
      assert (a + [sep] + b)[1..] == a[1..] + [sep] + b;
      SplitAfter(a[1..], sep, b);
      assert [a[0]] + a[1..] == a;
    }
  }

  /** The split has a single piece exactly when the separator does not occur. */
  lemma {:induction false} SplitSingle(s: string, sep: char)
    ensures |Split(s, sep)| == 1 <==> sep !in s
  {
    if |s| > 0 {
      SplitSingle(s[1..], sep);
      assert sep in s <==> s[0] == sep || sep in s[1..] by {
        assert s == [s[0]] + s[1..];
      }
    }
  }

  /** Text free of the separator splits into itself alone. */
  lemma {:induction false} SplitNone(a: string, sep: char)
    requires sep !in a
    ensures Split(a, sep) == [a]
  {
    if |a| > 0 {
      SplitNone(a[1..], sep);
      assert [a[0]] + a[1..] == a;
    }
  }

  function LowerChar(c: char): char
  {
    if 'A' <= c <= 'Z' then (c as int + 32) as char else c
  }

  /** ASCII case folding: upper-case Latin letters become lower case, every other character is kept. */
  function ToLower(s: string): (t: string)
    ensures |t| == |s|
    ensures forall i :: 0 <= i < |s| ==> t[i] == LowerChar(s[i])
  {
    seq(|s|, i requires 0 <= i < |s| => LowerChar(s[i]))
  }

  predicate IsDigit(c: char)
  {
    '0' <= c <= '9'
  }

  predicate AllDigits(s: string)
  {
    forall i :: 0 <= i < |s| ==> IsDigit(s[i])
  }

  function DigitValue(c: char): nat
    requires IsDigit(c)
  {
    c as int - '0' as int
  }

  /** The number written by a run of decimal digits, most significant first. */
  function DecimalValue(s: string): nat
    requires AllDigits(s)
    decreases |s|
  {
    if |s| == 0 then 0 else 10 * DecimalValue(s[..|s| - 1]) + DigitValue(s[|s| - 1])
  }

  function DigitChar(d: nat): (c: char)
    requires d < 10
    ensures IsDigit(c) && DigitValue(c) == d
  {
    (d + '0' as int) as char
  }

  /** Decimal rendering of a natural number, without leading zeros. */
  function NatToDecimal(n: nat): (s: string)
    ensures |s| >= 1 && AllDigits(s)
    ensures |s| > 1 ==> s[0] != '0'
    decreases n
  {
    if n < 10 then [DigitChar(n)] else NatToDecimal(n / 10) + [DigitChar(n % 10)]
  }

  /** Decimal rendering of an integer: a minus sign before the digits of a negative one. */
  function IntToDecimal(n: int): string
  {
    if n < 0 then "-" + NatToDecimal(-n) else NatToDecimal(n)
  }

  /** Reading back the digits of a rendered number gives the number. */
  lemma {:induction false} DecimalValueOfRendering(n: nat)
    ensures DecimalValue(NatToDecimal(n)) == n
  {
    if n >= 10 {
      var s := NatToDecimal(n);
      DecimalValueOfRendering(n / 10);
      assert s[..|s| - 1] == NatToDecimal(n / 10);
    }
  }
}
