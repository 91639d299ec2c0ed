/**
  The string operations of java.lang.String that the plugin relies on:
  `contains`, `replace` (every occurrence, left to right), `toUpperCase`,
  and the decimal text of an identifier.
 */
module Text {

  /** `sub` occurs in `s` starting at position `i`. */
  predicate OccursAt(s: string, sub: string, i: nat)
    requires i <= |s|
  {
    sub <= s[i..]
  }

  /** `String.contains`: `sub` occurs somewhere in `s`. */
  predicate Contains(s: string, sub: string)
    decreases |s|
  {
    sub <= s || (|s| > 0 && Contains(s[1..], sub))
  }

  /** The recursive scan finds exactly the positions at which `sub` occurs. */
  lemma {:induction false} ContainsIffOccurs(s: string, sub: string)
    ensures Contains(s, sub) <==> exists i: nat :: i <= |s| && OccursAt(s, sub, i)
    decreases |s|
  {
    if sub <= s {
      assert OccursAt(s, sub, 0);
    } else if |s| > 0 {
      ContainsIffOccurs(s[1..], sub);
      if Contains(s[1..], sub) {
        var i: nat :| i <= |s[1..]| && OccursAt(s[1..], sub, i);
        assert s[1..][i..] == s[i + 1..];
        assert OccursAt(s, sub, i + 1);
      }
      if exists i: nat :: i <= |s| && OccursAt(s, sub, i) {
        var i: nat :| i <= |s| && OccursAt(s, sub, i);
        assert i != 0;
        assert s[1..][i - 1..] == s[i..];
        assert OccursAt(s[1..], sub, i - 1);
      }
    }
  }

  /** A string without the first character of `sub` does not contain `sub`. */
  lemma {:induction false} MissingFirstCharNotContained(s: string, sub: string)
    requires sub != [] && sub[0] !in s
    ensures !Contains(s, sub)
    decreases |s|
  {
    if |s| > 0 {
      assert s[0] in s;
      MissingFirstCharNotContained(s[1..], sub);
    }
  }

  /**
    `String.replace(target, replacement)`: scans left to right and replaces
    every non-overlapping occurrence of `target`.
   */
  function ReplaceAll(s: string, target: string, replacement: string): string
    requires target != []
    decreases |s|
  {
    if s == [] then []
    else if target <= s then replacement + ReplaceAll(s[|target|..], target, replacement)
    else [s[0]] + ReplaceAll(s[1..], target, replacement)
  }

  /** A string in which `target` does not occur comes back unchanged. */
  lemma {:induction false} ReplaceAbsent(s: string, target: string, replacement: string)
    requires target != []
    requires !Contains(s, target)
    ensures ReplaceAll(s, target, replacement) == s
    decreases |s|
  {
    if s != [] {
      ReplaceAbsent(s[1..], target, replacement);
    }
  }

  /** Replacing a string by itself changes nothing. */
  lemma {:induction false} ReplaceBySelf(s: string, target: string)
    requires target != []
    ensures ReplaceAll(s, target, target) == s
    decreases |s|
  {
    if s == [] {
    } else if target <= s {
      ReplaceBySelf(s[|target|..], target);
      assert target + s[|target|..] == s;
    } else {
      ReplaceBySelf(s[1..], target);
      assert [s[0]] + s[1..] == s;
    }
  }

  /** `segments` glued together with `separator` between neighbours. */
  function Join(segments: seq<string>, separator: string): string
    decreases |segments|
  {
    if |segments| == 0 then []
    else if |segments| == 1 then segments[0]
    else segments[0] + separator + Join(segments[1..], separator)
  }

  /** `s` ends with `suffix`. */
  predicate EndsWith(s: string, suffix: string)
  {
    |suffix| <= |s| && s[|s| - |suffix|..] == suffix
  }

  /** No occurrence of `target` in `s` starts before position `n`. */
  predicate NoOccurrenceBefore(s: string, target: string, n: nat)
    requires n <= |s|
  {
    forall p :: 0 <= p < n ==> !OccursAt(s, target, p)
  }

  /** An occurrence that fits inside a prefix of `y` is an occurrence in that prefix. */
  lemma OccursWithin(x: string, y: string, target: string, p: nat)
    requires x <= y && p + |target| <= |x|
    ensures OccursAt(x, target, p) <==> OccursAt(y, target, p)
  {
    assert x[p..][..|target|] == y[p..][..|target|];
  }

  /**
    A prefix of length `|a|` in which no occurrence of `target` starts is
    copied through as it is.
   */
  lemma {:induction false} ReplaceAfterFreePrefix(a: string, s: string, target: string, replacement: string)
    requires target != []
    requires NoOccurrenceBefore(a + s, target, |a|)
    ensures ReplaceAll(a + s, target, replacement) == a + ReplaceAll(s, target, replacement)
    decreases |a|
  {
    if a == [] {
      assert a + s == s;
    } else {
      var x := a + s;
      assert x[1..] == a[1..] + s;
      assert !OccursAt(x, target, 0);
      assert ReplaceAll(x, target, replacement) == [x[0]] + ReplaceAll(x[1..], target, replacement);
      NoOccurrenceShift(a, s, target);
      ReplaceAfterFreePrefix(a[1..], s, target, replacement);
      assert [a[0]] + a[1..] == a;
    }
  }

  lemma NoOccurrenceShift(a: string, s: string, target: string)
    requires |a| > 0 && NoOccurrenceBefore(a + s, target, |a|)
    ensures NoOccurrenceBefore(a[1..] + s, target, |a| - 1)
  {
    forall p | 0 <= p < |a| - 1
      ensures !OccursAt(a[1..] + s, target, p)
    {
      assert !OccursAt(a + s, target, p + 1);
      assert (a + s)[p + 1..] == (a[1..] + s)[p..];
    }
  }

  /**
    `segments` can be told apart when joined by `target`: the left-to-right
    scan finds no occurrence starting inside a segment, so the occurrences it
    finds are exactly the separators.
   */
  predicate SeparableBy(segments: seq<string>, target: string)
  {
    && (forall k :: 0 <= k < |segments| - 1 ==> NoOccurrenceBefore(segments[k] + target, target, |segments[k]|))
    && (|segments| > 0 ==> !Contains(segments[|segments| - 1], target))
  }

  /**
    Every occurrence is replaced: separable segments joined by `target`
    become the same segments joined by `replacement`.
   */
  lemma {:induction false} ReplaceJoin(segments: seq<string>, target: string, replacement: string)
    requires target != []
    requires SeparableBy(segments, target)
    ensures ReplaceAll(Join(segments, target), target, replacement) == Join(segments, replacement)
    decreases |segments|
  {
    if |segments| == 0 {
    } else if |segments| == 1 {
      ReplaceAbsent(segments[0], target, replacement);
    } else {
      var rest := segments[1..];
      assert [segments[0]] + rest == segments;
      JoinCons(segments[0], rest, target);
      JoinCons(segments[0], rest, replacement);
      ReplaceJoinStep(segments[0], Join(rest, target), target, replacement);
      assert SeparableBy(rest, target);
      ReplaceJoin(rest, target, replacement);
    }
  }

  /** A segment, then the separator: the segment is copied and the separator replaced. */
  lemma ReplaceJoinStep(first: string, rest: string, target: string, replacement: string)
    requires target != []
    requires NoOccurrenceBefore(first + target, target, |first|)
    ensures ReplaceAll(first + target + rest, target, replacement)
            == first + replacement + ReplaceAll(rest, target, replacement)
  {
    assert (first + target) + rest == first + (target + rest);
    forall p | 0 <= p < |first|
      ensures !OccursAt(first + (target + rest), target, p)
    {
      OccursWithin(first + target, first + (target + rest), target, p);
    }
    ReplaceAfterFreePrefix(first, target + rest, target, replacement);
    assert target <= target + rest;
    assert (target + rest)[|target|..] == rest;
  }

  /**
    The segments of `s` around the occurrences of `target` that the
    left-to-right scan of `replace` finds.
   */
  function SplitAt(s: string, target: string): (r: seq<string>)
    requires target != []
    ensures |r| > 0
    decreases |s|
  {
    if s == [] then [[]]
    else if target <= s then [[]] + SplitAt(s[|target|..], target)
    else
      var rest := SplitAt(s[1..], target);
      [[s[0]] + rest[0]] + rest[1..]
  }

  lemma JoinCons(x: string, rest: seq<string>, separator: string)
    requires |rest| > 0
    ensures Join([x] + rest, separator) == x + separator + Join(rest, separator)
  {
    assert ([x] + rest)[1..] == rest;
  }

  /** Splitting and joining back with `target` gives the string again. */
  lemma {:induction false} SplitJoin(s: string, target: string)
    requires target != []
    ensures Join(SplitAt(s, target), target) == s
    decreases |s|
  {
    if s == [] {
    } else if target <= s {
      var tail := s[|target|..];
      assert SplitAt(s, target) == [[]] + SplitAt(tail, target);
      SplitJoin(tail, target);
      JoinCons([], SplitAt(tail, target), target);
      assert [] + target == target;
      assert s[..|target|] == target;
      assert s == target + tail;
    } else {
      var rest := SplitAt(s[1..], target);
      assert SplitAt(s, target) == [[s[0]] + rest[0]] + rest[1..];
      SplitJoin(s[1..], target);
      SplitJoinStep(s, rest, target);
    }
  }

  lemma SplitJoinStep(s: string, rest: seq<string>, target: string)
    requires s != [] && |rest| > 0 && Join(rest, target) == s[1..]
    ensures Join([[s[0]] + rest[0]] + rest[1..], target) == s
  {
    if |rest| == 1 {
      assert [[s[0]] + rest[0]] + rest[1..] == [[s[0]] + rest[0]];
      assert [s[0]] + s[1..] == s;
    } else {
      JoinCons(rest[0], rest[1..], target);
      JoinCons([s[0]] + rest[0], rest[1..], target);
      assert [rest[0]] + rest[1..] == rest;
      assert [s[0]] + s[1..] == s;
    }
  }

  /** The segments `SplitAt` finds are separable by `target`. */
  lemma {:induction false} SplitSeparable(s: string, target: string)
    requires target != []
    ensures SeparableBy(SplitAt(s, target), target)
    decreases |s|
  {
    if s == [] {
      assert SplitAt(s, target) == [[]];
    } else if target <= s {
      var tail := s[|target|..];
      assert SplitAt(s, target) == [[]] + SplitAt(tail, target);
      SplitSeparable(tail, target);
      SeparableAfterEmpty(SplitAt(tail, target), target);
    } else {
      var rest := SplitAt(s[1..], target);
      assert SplitAt(s, target) == [[s[0]] + rest[0]] + rest[1..];
      SplitSeparable(s[1..], target);
      SplitJoin(s[1..], target);
      SeparableStep(s, rest, target);
    }
  }

  /** An empty segment in front keeps segments separable. */
  lemma SeparableAfterEmpty(rest: seq<string>, target: string)
    requires |rest| > 0 && SeparableBy(rest, target)
    ensures SeparableBy([[]] + rest, target)
  {
    var r := [[]] + rest;
    forall k | 0 <= k < |r| - 1
      ensures NoOccurrenceBefore(r[k] + target, target, |r[k]|)
    {
      if k > 0 {
        assert r[k] == rest[k - 1];
      }
    }
  }

  /** A character that starts no occurrence, put in front of the first segment, keeps segments separable. */
  lemma SeparableStep(s: string, rest: seq<string>, target: string)
    requires target != [] && s != [] && !(target <= s)
    requires |rest| > 0 && SeparableBy(rest, target) && Join(rest, target) == s[1..]
    ensures SeparableBy([[s[0]] + rest[0]] + rest[1..], target)
  {
    var first := [s[0]] + rest[0];
    var r := [first] + rest[1..];
    if |rest| == 1 {
      assert first == s;
      assert r == [s];
    } else {
      JoinCons(rest[0], rest[1..], target);
      assert [rest[0]] + rest[1..] == rest;
      assert s == [s[0]] + s[1..];
      assert (first + target) + Join(rest[1..], target) == s;
      forall p | 0 <= p < |first|
        ensures !OccursAt(first + target, target, p)
      {
        if p == 0 {
          OccursWithin(first + target, s, target, 0);
        } else {
          assert !OccursAt(rest[0] + target, target, p - 1);
          assert (first + target)[p..] == (rest[0] + target)[p - 1..];
        }
      }
      forall k | 0 <= k < |r| - 1
        ensures NoOccurrenceBefore(r[k] + target, target, |r[k]|)
      {
        if k > 0 {
          assert r[k] == rest[k];
        }
      }
    }
  }

  /** `replace` is splitting at the occurrences and joining with the replacement. */
  lemma {:induction false} ReplaceIsSplitJoin(s: string, target: string, replacement: string)
    requires target != []
    ensures ReplaceAll(s, target, replacement) == Join(SplitAt(s, target), replacement)
  {
    SplitJoin(s, target);
    SplitSeparable(s, target);
    ReplaceJoin(SplitAt(s, target), target, replacement);
  }

  /** `Character.toUpperCase` restricted to ASCII letters. */
  function UpperChar(c: char): char
  {
    if 'a' <= c <= 'z' then (c as int - 32) as char else c
  }

  /** `String.toUpperCase` restricted to ASCII letters. */
  function Upper(s: string): string
  {
    seq(|s|, i requires 0 <= i < |s| => UpperChar(s[i]))
  }

  /** Upper-casing leaves a string without lower-case ASCII letters as it is. */
  lemma UpperKeepsCapitals(s: string)
    requires forall i :: 0 <= i < |s| ==> !('a' <= s[i] <= 'z')
    ensures Upper(s) == s
  {
  }

  function DigitChar(d: nat): char
    requires d < 10
  {
    ('0' as int + d) as char
  }

  predicate IsDigit(c: char)
  {
    '0' <= c <= '9'
  }

  /** The decimal text of `n`, most significant digit first. */
  function Decimal(n: nat): (r: string)
    ensures |r| > 0
    ensures forall i :: 0 <= i < |r| ==> IsDigit(r[i])
    decreases n
  {
    if n < 10 then [DigitChar(n)] else Decimal(n / 10) + [DigitChar(n % 10)]
  }

  function DigitValue(c: char): nat
    requires IsDigit(c)
  {
    c as int - '0' as int
  }

  /** The number a string of decimal digits denotes. */
  function DecimalValue(s: string): nat
    requires forall i :: 0 <= i < |s| ==> IsDigit(s[i])
    decreases |s|
  {
    if s == [] then 0
    else DecimalValue(s[..|s| - 1]) * 10 + DigitValue(s[|s| - 1])
  }

  /** Reading back the decimal text of a number gives the number. */
  lemma {:induction false} DecimalRoundTrip(n: nat)
    ensures DecimalValue(Decimal(n)) == n
    decreases n
  {
    if n >= 10 {
      DecimalRoundTrip(n / 10);
      var s := Decimal(n);
      assert s[..|s| - 1] == Decimal(n / 10);
    }
  }
}
