/**
 The few operations on Python `str` values that the fetcher relies on:
 `startswith`, `replace`, `split(sep)[0]` and the built-in ordering of strings
 that `sorted` uses. A Python string is modelled as a sequence of characters;
 characters compare by code point, as in Python.
 */
module PyStr {

  type Str = seq<char>

  /** `s.startswith(prefix)` */
  predicate StartsWith(s: Str, prefix: Str) {
    |prefix| <= |s| && s[..|prefix|] == prefix
  }

  /** `s` starts with `prefix` exactly when it is `prefix` followed by some rest. */
  lemma StartsWithConcat(s: Str, prefix: Str)
    ensures StartsWith(s, prefix) <==> exists rest :: s == prefix + rest
  {
    if StartsWith(s, prefix) {
      assert s == prefix + s[|prefix|..];
    }
  }

  /** `pat` occurs in `s` at index `i`. */
  predicate OccursAt(s: Str, pat: Str, i: nat) {
    i + |pat| <= |s| && s[i..i + |pat|] == pat
  }

  /** `pat in s` */
  predicate Contains(s: Str, pat: Str) {
    exists i: nat | i <= |s| :: OccursAt(s, pat, i)
  }

  /**
   `s.replace(pat, rep)` for a non-empty `pat`: the string is scanned from the
   left, and every non-overlapping occurrence of `pat` is replaced by `rep`,
   not only the first one.
   */
  function Replace(s: Str, pat: Str, rep: Str): (r: Str)
    requires |pat| > 0
    ensures StartsWith(s, pat) ==> StartsWith(r, rep)
    ensures !StartsWith(s, pat) && |s| > 0 ==> |r| > 0 && r[0] == s[0]
    decreases |s|
  {
    if |s| < |pat| then s
    else if StartsWith(s, pat) then rep + Replace(s[|pat|..], pat, rep)
    else [s[0]] + Replace(s[1..], pat, rep)
  }

  /** A string in which `pat` does not occur is left as it is by `replace`. */
  lemma {:induction false} ReplaceAbsent(s: Str, pat: Str, rep: Str)
    requires |pat| > 0
    requires !Contains(s, pat)
    ensures Replace(s, pat, rep) == s
  {
    if |s| >= |pat| {
      assert !OccursAt(s, pat, 0);
      assert s[..|pat|] == s[0..0 + |pat|];
      forall i: nat
        ensures !OccursAt(s[1..], pat, i)
      {
        if OccursAt(s[1..], pat, i) {
          assert s[1..][i..i + |pat|] == s[i + 1..i + 1 + |pat|];
          assert OccursAt(s, pat, i + 1);
        }
      }
      ReplaceAbsent(s[1..], pat, rep);
      assert s == [s[0]] + s[1..];
    }
  }

  /** An occurrence behind a prefix `x` is an occurrence in the rest `y`. */
  lemma OccursAtShift(x: Str, y: Str, pat: Str, i: nat)
    ensures OccursAt(x + y, pat, |x| + i) <==> OccursAt(y, pat, i)
  {
    if |x| + i + |pat| <= |x + y| {
      assert (x + y)[|x| + i..|x| + i + |pat|] == y[i..i + |pat|];
    }
  }

  /** A pattern with a character that `s` lacks does not occur in `s`. */
  lemma AbsentWithoutChar(s: Str, pat: Str, k: nat)
    requires k < |pat| && pat[k] !in s
    ensures !Contains(s, pat)
  {
    forall i: nat | i <= |s|
      ensures !OccursAt(s, pat, i)
    {
      if i + |pat| <= |s| {
        assert s[i..i + |pat|][k] == s[i + k];
      }
    }
  }

  /**
   `s.split(sep)[0]`: the text of `s` before its first `sep`, or all of `s`
   when `sep` does not occur in it.
   */
  function SplitHead(s: Str, sep: char): (r: Str)
    ensures StartsWith(s, r)
    ensures sep !in r
    ensures |r| < |s| ==> s[|r|] == sep
    decreases |s|
  {
    if s == [] || s[0] == sep then []
    else [s[0]] + SplitHead(s[1..], sep)
  }

  /**
   Python's `a <= b` on strings: lexicographic by code point, a proper prefix
   coming first.
   */
  predicate Le(a: Str, b: Str)
    decreases |a|
  {
    |a| == 0 || (|b| > 0 && (a[0] < b[0] || (a[0] == b[0] && Le(a[1..], b[1..]))))
  }

  /** Python's `a < b` on strings. */
  predicate Lt(a: Str, b: Str) {
    Le(a, b) && a != b
  }

  lemma {:induction false} LeAntisymmetric(a: Str, b: Str)
    requires Le(a, b) && Le(b, a)
    ensures a == b
  {
    if |a| > 0 && |b| > 0 {
      LeAntisymmetric(a[1..], b[1..]);
      assert a == [a[0]] + a[1..] && b == [b[0]] + b[1..];
    }
  }

  lemma {:induction false} LeTransitive(a: Str, b: Str, c: Str)
    requires Le(a, b) && Le(b, c)
    ensures Le(a, c)
  {
    if |a| > 0 && a[0] == b[0] && b[0] == c[0] {
      LeTransitive(a[1..], b[1..], c[1..]);
    }
  }

  lemma {:induction false} LeTotal(a: Str, b: Str)
    ensures Le(a, b) || Le(b, a)
  {
    if |a| > 0 && |b| > 0 && a[0] == b[0] {
      LeTotal(a[1..], b[1..]);
    }
  }

  /** `<` on strings is a strict order: irreflexive and transitive. */
  lemma LtTransitive(a: Str, b: Str, c: Str)
    requires Lt(a, b) && Lt(b, c)
    ensures Lt(a, c)
  {
    LeTransitive(a, b, c);
    if a == c {
      LeAntisymmetric(a, b);
    }
  }

  /** Of two strings, exactly one of `a < b`, `a == b`, `b < a` holds. */
  lemma LtTrichotomy(a: Str, b: Str)
    ensures Lt(a, b) || a == b || Lt(b, a)
    ensures !(Lt(a, b) && Lt(b, a))
  {
    LeTotal(a, b);
    if Le(a, b) && Le(b, a) {
      LeAntisymmetric(a, b);
    }
  }
}
