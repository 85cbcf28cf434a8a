/**
 * String operations shared by the Java and Python sides: suffix tests, the
 * remove-every-occurrence `replace(pat, "")` of Java's `String` and Python's `str`,
 * and the code-point order in which Python sorts strings.
 */
module Strings {

  predicate EndsWith(s: string, suffix: string) {
    |suffix| <= |s| && s[|s| - |suffix|..] == suffix
  }

  /** Regrouping a concatenation of four sequences, proved apart from any other facts. */
  lemma Regroup4<T>(a: seq<T>, b: seq<T>, c: seq<T>, d: seq<T>)
    ensures a + b + c + d == a + (b + c + d)
    ensures a + b + c + d == a + b + (c + d)
  {
  }

  lemma TakeTake<T>(s: seq<T>, i: nat, j: nat)
    requires j <= i <= |s|
    ensures s[..i][..j] == s[..j]
  {
  }

  /** `pat` occurs in `s` starting at position `i`. */
  predicate OccursAt(s: string, pat: string, i: int) {
    0 <= i && i + |pat| <= |s| && s[i..i + |pat|] == pat
  }

  /** `pat` occurs nowhere in `s`. */
  predicate Free(s: string, pat: string) {
    forall i :: 0 <= i < |s| ==> !OccursAt(s, pat, i)
  }

  /**
   * `s.replace(pat, "")`: scanning left to right, every occurrence of `pat` that does
   * not overlap an earlier removed one is deleted; the text after a removal is not
   * rescanned together with what precedes it.
   */
  function RemoveAll(s: string, pat: string): (r: string)
    requires |pat| > 0
    ensures |r| <= |s|
    decreases |s|
  {
    if |s| < |pat| then s
    else if s[..|pat|] == pat then RemoveAll(s[|pat|..], pat)
    else [s[0]] + RemoveAll(s[1..], pat)
  }

  /** `RemoveAll` only deletes characters: one absent from `s` is absent from the result. */
  lemma {:induction false} RemoveAllAvoids(s: string, pat: string, c: char)
    requires |pat| > 0
    requires forall k :: 0 <= k < |s| ==> s[k] != c
    ensures forall k :: 0 <= k < |RemoveAll(s, pat)| ==> RemoveAll(s, pat)[k] != c
    decreases |s|
  {
    if |s| < |pat| {
    } else if s[..|pat|] == pat {
      RemoveAllAvoids(s[|pat|..], pat, c);
    } else {
      RemoveAllAvoids(s[1..], pat, c);
    }
  }

  /** An occurrence in `u[1..]` is an occurrence in `u` one position further on. */
  lemma OccursShift(u: string, pat: string, i: nat)
    requires |u| > 0
    ensures OccursAt(u[1..], pat, i) <==> OccursAt(u, pat, i + 1)
  {
    if i + 1 + |pat| <= |u| {
      assert u[1..][i..i + |pat|] == u[i + 1..i + 1 + |pat|];
    }
  }

  /** A prefix in which no occurrence of `pat` starts passes through `RemoveAll` unchanged. */
  lemma {:induction false} RemoveAllKeepsPrefix(s: string, t: string, pat: string)
    requires |pat| > 0
    requires forall i :: 0 <= i < |s| ==> !OccursAt(s + t, pat, i)
    ensures RemoveAll(s + t, pat) == s + RemoveAll(t, pat)
    decreases |s|
  {
    var u := s + t;
    if s == [] {
      assert u == t;
    } else if |u| < |pat| {
      assert |t| < |pat|;
    } else {
      assert !OccursAt(u, pat, 0);
      assert RemoveAll(u, pat) == [u[0]] + RemoveAll(u[1..], pat);
      assert u[1..] == s[1..] + t;
      forall i | 0 <= i < |s[1..]|
        ensures !OccursAt(s[1..] + t, pat, i)
      {
        OccursShift(u, pat, i);
      }
      RemoveAllKeepsPrefix(s[1..], t, pat);
      assert s == [s[0]] + s[1..];
    }
  }

  lemma FreeUnchanged(s: string, pat: string)
    requires |pat| > 0 && Free(s, pat)
    ensures RemoveAll(s, pat) == s
  {
    assert s + [] == s;
    RemoveAllKeepsPrefix(s, [], pat);
    assert RemoveAll([], pat) == [];
  }

  /** Removing `pat` from `s + pat`, where no occurrence starts inside `s`, leaves `s`. */
  lemma RemoveTrailing(s: string, pat: string)
    requires |pat| > 0
    requires forall i :: 0 <= i < |s| ==> !OccursAt(s + pat, pat, i)
    ensures RemoveAll(s + pat, pat) == s
  {
    RemoveAllKeepsPrefix(s, pat, pat);
    assert pat[..|pat|] == pat && pat[|pat|..] == [];
    assert RemoveAll(pat, pat) == RemoveAll([], pat) == [];
    assert s + [] == s;
  }

  /**
   * When `suf` starts with a dot and `pat` has no dot after its first character, an
   * occurrence of `pat` in `stem + suf` cannot start inside a `pat`-free `stem`.
   */
  lemma NoOccurrenceInStem(stem: string, suf: string, pat: string)
    requires Free(stem, pat)
    requires |suf| > 0 && suf[0] == '.'
    requires forall k :: 0 < k < |pat| ==> pat[k] != '.'
    ensures forall i :: 0 <= i < |stem| ==> !OccursAt(stem + suf, pat, i)
  {
    forall i | 0 <= i < |stem|
      ensures !OccursAt(stem + suf, pat, i)
    {
      if i + |pat| <= |stem| {
        assert stem[i..i + |pat|] == (stem + suf)[i..i + |pat|];
        assert !OccursAt(stem, pat, i);
      } else if i + |pat| <= |stem + suf| {
        var k := |stem| - i;
        assert (stem + suf)[i..i + |pat|][k] == (stem + suf)[|stem|] == '.';
        assert pat[k] != '.';
      }
    }
  }

  /** Under the same conditions, `stem + suf` is `pat`-free when `suf` is. */
  lemma FreeJoin(stem: string, suf: string, pat: string)
    requires Free(stem, pat) && Free(suf, pat)
    requires |suf| > 0 && suf[0] == '.'
    requires forall k :: 0 < k < |pat| ==> pat[k] != '.'
    ensures Free(stem + suf, pat)
  {
    NoOccurrenceInStem(stem, suf, pat);
    forall i | |stem| <= i < |stem + suf|
      ensures !OccursAt(stem + suf, pat, i)
    {
      assert !OccursAt(suf, pat, i - |stem|);
      if i + |pat| <= |stem + suf| {
        assert (stem + suf)[i..i + |pat|] == suf[i - |stem|..i - |stem| + |pat|];
      }
    }
  }

  /**
   * `pat` cannot occur in `s` when every occurrence of its first character in `s` is
   * followed by a character other than its second (or ends `s`).
   */
  lemma FreeByLead(s: string, pat: string)
    requires |pat| >= 2
    requires forall k :: 0 <= k < |s| && s[k] == pat[0] ==> k + 1 == |s| || s[k + 1] != pat[1]
    ensures Free(s, pat)
  {
    forall i | 0 <= i < |s|
      ensures !OccursAt(s, pat, i)
    {
      if i + |pat| <= |s| {
        assert s[i..i + |pat|][0] == s[i] && s[i..i + |pat|][1] == s[i + 1];
      }
    }
  }

  /** Python's `<` on `str`: lexicographic by code point, a proper prefix first. */
  predicate Less(a: string, b: string) {
    if a == [] then b != []
    else if b == [] then false
    else if a[0] != b[0] then a[0] < b[0]
    else Less(a[1..], b[1..])
  }

  lemma {:induction false} LessIrreflexive(a: string)
    ensures !Less(a, a)
  {
    if a != [] {
      LessIrreflexive(a[1..]);
    }
  }

  lemma {:induction false} LessTransitive(a: string, b: string, c: string)
    requires Less(a, b) && Less(b, c)
    ensures Less(a, c)
  {
    if a != [] && b != [] && c != [] && a[0] == b[0] && b[0] == c[0] {
      LessTransitive(a[1..], b[1..], c[1..]);
    }
  }

  lemma {:induction false} LessTotal(a: string, b: string)
    requires a != b
    ensures Less(a, b) || Less(b, a)
  {
    if a != [] && b != [] && a[0] == b[0] {
      assert a == [a[0]] + a[1..] && b == [b[0]] + b[1..];
      LessTotal(a[1..], b[1..]);
    }
  }

  lemma {:induction false} LessAsymmetric(a: string, b: string)
    requires Less(a, b)
    ensures !Less(b, a)
  {
    if a != [] && b != [] && a[0] == b[0] {
      LessAsymmetric(a[1..], b[1..]);
    }
  }
}
