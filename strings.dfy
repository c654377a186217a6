/** String predicates shared by the naming and path functions. */
module Strings {

  /** `s.StartsWith(prefix)`. */
  predicate StartsWith(s: string, prefix: string)
  {
    |prefix| <= |s| && s[..|prefix|] == prefix
  }

  /** `s.EndsWith(suffix)`. */
  predicate EndsWith(s: string, suffix: string)
  {
    |suffix| <= |s| && s[|s| - |suffix|..] == suffix
  }

  /** A prefix of a prefix is a prefix. */
  lemma StartsWithTransitive(a: string, b: string, c: string)
    requires StartsWith(a, b) && StartsWith(b, c)
    ensures StartsWith(a, c)
  {
    assert a[..|c|] == a[..|b|][..|c|];
  }

  /** A suffix of a suffix is a suffix. */
  lemma EndsWithTransitive(a: string, b: string, c: string)
    requires EndsWith(a, b) && EndsWith(b, c)
    ensures EndsWith(a, c)
  {
    assert a[|a| - |c|..] == a[|a| - |b|..][|b| - |c|..];
  }

  /** A string ends with the last character of each of its suffixes. */
  lemma LastOfSuffix(s: string, suffix: string)
    requires suffix != []
    ensures EndsWith(s, suffix) ==> s[|s| - 1] == suffix[|suffix| - 1]
  {
    if EndsWith(s, suffix) {
      assert s[|s| - 1] == s[|s| - |suffix|..][|suffix| - 1];
    }
  }

  /** A string starts with what it is extended from and ends with what extends it. */
  lemma ConcatStartsEnds(a: string, b: string)
    ensures StartsWith(a + b, a) && EndsWith(a + b, b)
  {
    assert (a + b)[..|a|] == a;
    assert (a + b)[|a|..] == b;
  }

  /**
   * r is s with zero or more space characters inserted: deleting the
   * inserted spaces from r gives back s.
   */
  predicate SpacesInserted(s: string, r: string)
    decreases |r|
  {
    if r == [] then s == []
    else
      (s != [] && r[0] == s[0] && SpacesInserted(s[1..], r[1..]))
      || (r[0] == ' ' && SpacesInserted(s, r[1..]))
  }

  /** Inserting spaces twice is inserting spaces once. */
  lemma {:induction false} SpacesInsertedTransitive(a: string, b: string, c: string)
    requires SpacesInserted(a, b) && SpacesInserted(b, c)
    ensures SpacesInserted(a, c)
    decreases |c|
  {
    if c == [] {
    } else if c[0] == ' ' && SpacesInserted(b, c[1..]) {
      SpacesInsertedTransitive(a, b, c[1..]);
    } else {
      assert b != [] && c[0] == b[0] && SpacesInserted(b[1..], c[1..]);
      if a != [] && b[0] == a[0] && SpacesInserted(a[1..], b[1..]) {
        SpacesInsertedTransitive(a[1..], b[1..], c[1..]);
      } else {
        assert b[0] == ' ' && SpacesInserted(a, b[1..]);
        SpacesInsertedTransitive(a, b[1..], c[1..]);
      }
    }
  }

}
