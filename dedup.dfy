/**
 * `array_values(array_unique($errors))`: keeps the first occurrence of every message, in the
 * order of first occurrence.
 */
module Dedup {

  /** No message appears twice. */
  predicate NoDuplicates(s: seq<string>) {
    forall i, j :: 0 <= i < j < |s| ==> s[i] != s[j]
  }

  /** The messages of `s` without repetitions, each at the place of its first occurrence. */
  function Unique(s: seq<string>): seq<string>
    decreases |s|
  {
    if s == [] then []
    else
      var u := Unique(s[..|s| - 1]);
      if s[|s| - 1] in u then u else u + [s[|s| - 1]]
  }

  /** Deduplication loses no message and invents none. */
  lemma {:induction false} UniqueSameElements(s: seq<string>)
    ensures forall x :: x in Unique(s) <==> x in s
    decreases |s|
  {
    if s != [] {
      var init := s[..|s| - 1];
      UniqueSameElements(init);
      assert s == init + [s[|s| - 1]];
    }
  }

  /** The deduplicated list has no repeated message. */
  lemma {:induction false} UniqueNoDuplicates(s: seq<string>)
    ensures NoDuplicates(Unique(s))
    decreases |s|
  {
    if s != [] {
      UniqueNoDuplicates(s[..|s| - 1]);
    }
  }

  /** The deduplicated list is empty exactly when the input is. */
  lemma UniqueEmpty(s: seq<string>)
    ensures Unique(s) == [] <==> s == []
  {
    UniqueSameElements(s);
    if s != [] {
      assert s[0] in Unique(s);
    }
  }

  /** A list without repetitions is left as it is, so deduplicating twice changes nothing. */
  lemma {:induction false} UniqueOfDistinct(s: seq<string>)
    requires NoDuplicates(s)
    ensures Unique(s) == s
    decreases |s|
  {
    if s != [] {
      var init := s[..|s| - 1];
      UniqueOfDistinct(init);
      assert s[|s| - 1] !in init;
      assert s == init + [s[|s| - 1]];
    }
  }

  /** Deduplication is idempotent. */
  lemma UniqueIdempotent(s: seq<string>)
    ensures Unique(Unique(s)) == Unique(s)
  {
    UniqueNoDuplicates(s);
    UniqueOfDistinct(Unique(s));
  }

  /** Appending messages that are already present changes nothing once deduplicated. */
  lemma {:induction false} UniqueAppendKnown(s: seq<string>, t: seq<string>)
    requires forall x :: x in t ==> x in s
    ensures Unique(s + t) == Unique(s)
    decreases |t|
  {
    if t != [] {
      var init := t[..|t| - 1];
      assert forall x :: x in init ==> x in t;
      UniqueAppendKnown(s, init);
      UniqueSameElements(s);
      var st := s + t;
      assert st[..|st| - 1] == s + init;
      assert st[|st| - 1] == t[|t| - 1] && t[|t| - 1] in t;
    } else {
      assert s + t == s;
    }
  }
}
