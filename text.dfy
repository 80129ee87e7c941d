/**
 * The two PHP string built-ins the message resolver relies on: `str_replace` with one search
 * string, and the decimal form `(string)$int`.
 */
module Text {

  /** `needle` occurs in `s` starting at index `i`. */
  predicate OccursAt(needle: string, s: string, i: nat) {
    i + |needle| <= |s| && s[i..i + |needle|] == needle
  }

  /** `needle` occurs somewhere in `s`. */
  ghost predicate Contains(s: string, needle: string) {
    exists i: nat :: OccursAt(needle, s, i)
  }

  /**
   * `str_replace($search, $replace, $subject)`: scans left to right and replaces every
   * non-overlapping occurrence; an empty search string leaves the subject unchanged.
   */
  function StrReplace(search: string, replace: string, subject: string): string
    decreases |subject|
  {
    if search == [] || |subject| < |search| then subject
    else if OccursAt(search, subject, 0) then
      replace + StrReplace(search, replace, subject[|search|..])
    else
      [subject[0]] + StrReplace(search, replace, subject[1..])
  }

  /** A subject in which the search string does not occur is returned unchanged. */
  lemma {:induction false} StrReplaceAbsent(search: string, replace: string, subject: string)
    requires !Contains(subject, search)
    ensures StrReplace(search, replace, subject) == subject
    decreases |subject|
  {
    if search == [] || |subject| < |search| {
    } else {
      assert !OccursAt(search, subject, 0);
      assert !Contains(subject[1..], search) by {
        forall i: nat | OccursAt(search, subject[1..], i) ensures false {
          assert subject[1..][i..i + |search|] == subject[i + 1..i + 1 + |search|];
          assert OccursAt(search, subject, i + 1);
        }
      }
      StrReplaceAbsent(search, replace, subject[1..]);
    }
  }

  /**
   * The occurrence of the search string right after a prefix in which it does not start is
   * the first one replaced: `p + search + q` becomes `p + replace + (q replaced)`.
   */
  lemma StrReplaceFirst(search: string, replace: string, p: string, q: string)
    requires search != []
    requires forall i: nat :: i < |p| ==> !OccursAt(search, p + search + q, i)
    ensures StrReplace(search, replace, p + search + q) == p + replace + StrReplace(search, replace, q)
  {
    var s := p + search + q;
    assert s[|p|..|p| + |search|] == search;
    StrReplaceAt(search, replace, s, |p|);
    assert s[..|p|] == p && s[|p| + |search|..] == q;
  }

  /** The first occurrence, at index `n`, is the first one replaced; what precedes it is copied. */
  lemma {:induction false} StrReplaceAt(search: string, replace: string, s: string, n: nat)
    requires search != [] && OccursAt(search, s, n)
    requires forall i: nat :: i < n ==> !OccursAt(search, s, i)
    ensures StrReplace(search, replace, s) == s[..n] + replace + StrReplace(search, replace, s[n + |search|..])
    decreases n
  {
    if n == 0 {
      StrReplaceAtStart(search, replace, s);
      assert s[..0] + replace == replace;
    } else {
      assert !OccursAt(search, s, 0);
      OccursShift(search, s, n);
      StrReplaceAt(search, replace, s[1..], n - 1);
      StrReplaceAtStep(search, replace, s, n);
    }
  }

  /** One step of StrReplaceAt: the result for the tail, with the first character put back. */
  lemma StrReplaceAtStep(search: string, replace: string, s: string, n: nat)
    requires search != [] && 0 < n && OccursAt(search, s, n) && !OccursAt(search, s, 0)
    requires StrReplace(search, replace, s[1..]) ==
      s[1..][..n - 1] + replace + StrReplace(search, replace, s[1..][n - 1 + |search|..])
    ensures StrReplace(search, replace, s) == s[..n] + replace + StrReplace(search, replace, s[n + |search|..])
  {
    var head := s[1..][..n - 1];
    var rest := StrReplace(search, replace, s[n + |search|..]);
    assert StrReplace(search, replace, s) == [s[0]] + StrReplace(search, replace, s[1..]) by {
      StrReplaceSkip(search, replace, s);
    }
    assert StrReplace(search, replace, s[1..]) == head + replace + rest by {
      assert s[1..][n - 1 + |search|..] == s[n + |search|..];
    }
    assert [s[0]] + (head + replace + rest) == s[..n] + replace + rest by {
      Regroup([s[0]], head, replace, rest);
      assert [s[0]] + head == s[..n];
    }
  }

  /** Concatenation regrouped: `x + (a + b + c)` is `(x + a) + b + c`. */
  lemma Regroup(x: string, a: string, b: string, c: string)
    ensures x + (a + b + c) == x + a + b + c
  {
  }

  /** Where the search string does not start, the first character is copied through. */
  lemma StrReplaceSkip(search: string, replace: string, s: string)
    requires search != [] && |search| <= |s| && !OccursAt(search, s, 0)
    ensures StrReplace(search, replace, s) == [s[0]] + StrReplace(search, replace, s[1..])
  {
  }

  /** A subject starting with the search string starts with the replacement. */
  lemma StrReplaceAtStart(search: string, replace: string, s: string)
    requires search != [] && OccursAt(search, s, 0)
    ensures StrReplace(search, replace, s) == replace + StrReplace(search, replace, s[|search|..])
  {
  }

  /** Dropping the first character moves the first occurrence one position to the left. */
  lemma OccursShift(search: string, s: string, n: nat)
    requires 0 < n && OccursAt(search, s, n)
    requires forall i: nat :: i < n ==> !OccursAt(search, s, i)
    ensures OccursAt(search, s[1..], n - 1)
    ensures forall i: nat :: i < n - 1 ==> !OccursAt(search, s[1..], i)
  {
    assert s[1..][n - 1..n - 1 + |search|] == s[n..n + |search|];
    forall i: nat | i < n - 1
      ensures !OccursAt(search, s[1..], i)
    {
      assert !OccursAt(search, s, i + 1);
      assert s[1..][i..i + |search|] == s[i + 1..i + 1 + |search|];
    }
  }

  /** A search string cannot start at a position holding a different character. */
  lemma NoOccurrenceWithoutFirstChar(needle: string, s: string, lo: nat, hi: nat)
    requires needle != [] && lo <= hi <= |s|
    requires needle[0] !in s[lo..hi]
    ensures forall i: nat :: lo <= i < hi ==> !OccursAt(needle, s, i)
  {
    forall i: nat | lo <= i < hi ensures !OccursAt(needle, s, i) {
      assert s[lo..hi][i - lo] == s[i];
      assert i + |needle| <= |s| ==> s[i..i + |needle|][0] == s[i];
    }
  }

  /** A subject without the first character of the search string is left unchanged. */
  lemma StrReplaceWithoutFirstChar(search: string, replace: string, subject: string)
    requires search != [] && search[0] !in subject
    ensures StrReplace(search, replace, subject) == subject
  {
    assert subject[0..|subject|] == subject;
    NoOccurrenceWithoutFirstChar(search, subject, 0, |subject|);
    StrReplaceAbsent(search, replace, subject);
  }

  /**
   * A subject holding the search string exactly once, with the search string's first character
   * nowhere else, has that one occurrence replaced.
   */
  lemma StrReplaceOnce(search: string, replace: string, p: string, q: string)
    requires search != [] && search[0] !in p && search[0] !in q
    ensures StrReplace(search, replace, p + search + q) == p + replace + q
  {
    var s := p + search + q;
    assert s[0..|p|] == p;
    NoOccurrenceWithoutFirstChar(search, s, 0, |p|);
    StrReplaceFirst(search, replace, p, q);
    StrReplaceWithoutFirstChar(search, replace, q);
  }

  /**
   * No occurrence of `search` starts inside `a + b` when `a` lacks its first character and `b`
   * holds that character only at its start, followed by a character `search` does not have
   * there (a word like `:name` against the search string `:fieldName`).
   */
  lemma NoOccurrenceBeforeWord(search: string, a: string, b: string, rest: string)
    requires |search| >= 2 && |b| >= 2
    requires search[0] !in a && b[0] == search[0] && b[1] != search[1] && search[0] !in b[1..]
    ensures forall i: nat :: i < |a + b| ==> !OccursAt(search, a + b + rest, i)
  {
    var s := a + b + rest;
    assert s[0..|a|] == a;
    NoOccurrenceWithoutFirstChar(search, s, 0, |a|);
    assert s[|a| + 1..|a + b|] == b[1..];
    NoOccurrenceWithoutFirstChar(search, s, |a| + 1, |a + b|);
    assert |a| + |search| <= |s| ==> s[|a|..|a| + |search|][1] == b[1];
  }

  /** A subject whose only candidate occurrence is such a word is left unchanged. */
  lemma StrReplaceSkipsWord(search: string, replace: string, a: string, b: string)
    requires |search| >= 2 && |b| >= 2
    requires search[0] !in a && b[0] == search[0] && b[1] != search[1] && search[0] !in b[1..]
    ensures StrReplace(search, replace, a + b) == a + b
  {
    NoOccurrenceBeforeWord(search, a, b, []);
    assert a + b + [] == a + b;
    StrReplaceAbsent(search, replace, a + b);
  }

  /** After such a word, a trailing occurrence of `search` is the only one replaced. */
  lemma StrReplaceAfterWord(search: string, replace: string, a: string, b: string)
    requires |search| >= 2 && |b| >= 2
    requires search[0] !in a && b[0] == search[0] && b[1] != search[1] && search[0] !in b[1..]
    ensures StrReplace(search, replace, a + b + search) == a + b + replace
  {
    NoOccurrenceBeforeWord(search, a, b, search);
    assert a + b + search == (a + b) + search + [];
    StrReplaceFirst(search, replace, a + b, []);
    assert (a + b) + replace + StrReplace(search, replace, []) == a + b + replace;
  }

  /** The decimal digit character for `d`. */
  function DigitChar(d: nat): char
    requires d < 10
  {
    "0123456789"[d]
  }

  /** The value of a decimal digit character (0 for any other character). */
  function DigitValue(c: char): nat {
    if '0' <= c <= '9' then (c - '0') as nat else 0
  }

  /** The decimal form of a natural number, without leading zeros. */
  function NatToString(n: nat): string
    decreases n
  {
    if n < 10 then [DigitChar(n)] else NatToString(n / 10) + [DigitChar(n % 10)]
  }

  /** `(string)$i` for a PHP int: decimal, with a leading minus sign when negative. */
  function IntToString(i: int): string {
    if i < 0 then "-" + NatToString(-i) else NatToString(i)
  }

  /** Reads a string of decimal digits back into a number. */
  function ParseNat(s: string): nat
    decreases |s|
  {
    if s == [] then 0 else 10 * ParseNat(s[..|s| - 1]) + DigitValue(s[|s| - 1])
  }

  /** Reads an optionally negative decimal number back. */
  function ParseInt(s: string): int {
    if s != [] && s[0] == '-' then -(ParseNat(s[1..]) as int) else ParseNat(s)
  }

  /** Printing a natural number and reading it back gives the number. */
  lemma {:induction false} NatToStringRoundTrip(n: nat)
    ensures |NatToString(n)| > 0
    ensures NatToString(n)[0] != '-'
    ensures ParseNat(NatToString(n)) == n
    decreases n
  {
    if n >= 10 {
      NatToStringRoundTrip(n / 10);
      var s := NatToString(n);
      assert s[..|s| - 1] == NatToString(n / 10);
    }
  }

  /** The decimal form of a natural number consists of digits only. */
  lemma {:induction false} NatToStringDigits(n: nat)
    ensures forall k :: 0 <= k < |NatToString(n)| ==> '0' <= NatToString(n)[k] <= '9'
    decreases n
  {
    if n >= 10 {
      NatToStringDigits(n / 10);
    }
  }

  /** The decimal form of an int holds only digits and a leading minus sign, so never a `:`. */
  lemma IntToStringNoColon(i: int)
    ensures ':' !in IntToString(i)
  {
    if i < 0 {
      NatToStringDigits(-i);
      assert IntToString(i) == "-" + NatToString(-i);
    } else {
      NatToStringDigits(i);
    }
  }

  /** Printing a PHP int and reading it back gives the int: the decimal form is faithful. */
  lemma IntToStringRoundTrip(i: int)
    ensures ParseInt(IntToString(i)) == i
  {
    if i < 0 {
      var s := NatToString(-i);
      NatToStringRoundTrip(-i);
      var t := "-" + s;
      assert IntToString(i) == t;
      assert t[0] == '-' && t[1..] == s;
      assert ParseInt(t) == -(ParseNat(s) as int);
    } else {
      NatToStringRoundTrip(i);
      assert IntToString(i) == NatToString(i);
    }
  }
}
