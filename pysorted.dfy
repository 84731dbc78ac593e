/**
 Two-element lists of strings, such as `[date, url]`, and Python's `sorted`
 applied to a list of them. Python compares lists element by element, so
 `[d1, u1] <= [d2, u2]` holds when `d1 < d2`, or `d1 == d2` and `u1 <= u2`.
 */
module PySorted {
  import opened PyStr

  /** The list `[first, second]`. */
  datatype Pair = Pair(first: Str, second: Str)

  /** Python's `<=` on two-element lists. */
  predicate PairLe(p: Pair, q: Pair) {
    Lt(p.first, q.first) || (p.first == q.first && Le(p.second, q.second))
  }

  /** Every element is `<=` every later one: the order `sorted` produces. */
  ghost predicate IsSorted(s: seq<Pair>) {
    forall i, j :: 0 <= i < j < |s| ==> PairLe(s[i], s[j])
  }

  /** No element occurs twice. */
  ghost predicate Distinct(s: seq<Pair>) {
    forall i, j :: 0 <= i < j < |s| ==> s[i] != s[j]
  }

  /** The first components strictly increase: sorted, with no first component repeated. */
  ghost predicate StrictlyAscending(s: seq<Pair>) {
    forall i, j :: 0 <= i < j < |s| ==> Lt(s[i].first, s[j].first)
  }

  lemma PairLeTotal(p: Pair, q: Pair)
    ensures PairLe(p, q) || PairLe(q, p)
  {
    LtTrichotomy(p.first, q.first);
    LeTotal(p.second, q.second);
  }

  lemma PairLeTransitive(p: Pair, q: Pair, r: Pair)
    requires PairLe(p, q) && PairLe(q, r)
    ensures PairLe(p, r)
  {
    if Lt(p.first, q.first) && Lt(q.first, r.first) {
      LtTransitive(p.first, q.first, r.first);
    } else if p.first == q.first && q.first == r.first {
      LeTransitive(p.second, q.second, r.second);
    }
  }

  /** Inserts `x` into a list in front of the first element it is `<=` to. */
  function Insert(x: Pair, s: seq<Pair>): (r: seq<Pair>)
    ensures multiset(r) == multiset(s) + multiset{x}
    decreases |s|
  {
    if s == [] then [x]
    else if PairLe(x, s[0]) then [x] + s
    else
      assert s == [s[0]] + s[1..];
      [s[0]] + Insert(x, s[1..])
  }

  /** Inserting into a sorted list keeps it sorted. */
  lemma {:induction false} InsertSorted(x: Pair, s: seq<Pair>)
    requires IsSorted(s)
    ensures IsSorted(Insert(x, s))
    decreases |s|
  {
    if s == [] {
    } else if PairLe(x, s[0]) {
      forall j | 1 < j < |s| + 1
        ensures PairLe(x, ([x] + s)[j])
      {
        PairLeTransitive(x, s[0], s[j - 1]);
      }
    } else {
      var t := Insert(x, s[1..]);
      assert IsSorted(s[1..]);
      InsertSorted(x, s[1..]);
      PairLeTotal(x, s[0]);
      forall j | 0 <= j < |t|
        ensures PairLe(s[0], t[j])
      {
        assert t[j] in multiset(t);
        if t[j] != x {
          assert t[j] in multiset(s[1..]);
          var k :| 0 <= k < |s[1..]| && s[1..][k] == t[j];
          assert s[k + 1] == t[j];
        }
      }
    }
  }

  /** Inserting a new element into a list without repetitions keeps it without repetitions. */
  lemma {:induction false} InsertDistinct(x: Pair, s: seq<Pair>)
    requires Distinct(s) && x !in s
    ensures Distinct(Insert(x, s))
    decreases |s|
  {
    if s != [] && !PairLe(x, s[0]) {
      assert Distinct(s[1..]) && x !in s[1..];
      InsertDistinct(x, s[1..]);
      var t := Insert(x, s[1..]);
      assert s[0] !in t by {
        assert s[0] !in multiset(s[1..]) + multiset{x};
      }
    }
  }

  /** `sorted(s)`: an ordered permutation of `s`. */
  function Sort(s: seq<Pair>): (r: seq<Pair>)
    ensures multiset(r) == multiset(s)
    ensures IsSorted(r)
    ensures Distinct(s) ==> Distinct(r)
    decreases |s|
  {
    if s == [] then []
    else
      assert s == [s[0]] + s[1..];
      var t := Sort(s[1..]);
      InsertSorted(s[0], t);
      SortDistinctStep(s, t);
      Insert(s[0], t)
  }

  lemma SortDistinctStep(s: seq<Pair>, t: seq<Pair>)
    requires s != [] && multiset(t) == multiset(s[1..])
    requires Distinct(s[1..]) ==> Distinct(t)
    ensures Distinct(s) ==> Distinct(Insert(s[0], t))
  {
    if Distinct(s) {
      assert s[0] !in multiset(s[1..]);
      InsertDistinct(s[0], t);
    }
  }

  /**
   Two lists whose first components strictly increase and that hold the same
   elements are the same list: such a list is determined by its elements.
   */
  lemma {:induction false} AscendingUnique(a: seq<Pair>, b: seq<Pair>)
    requires StrictlyAscending(a) && StrictlyAscending(b)
    requires forall p :: p in a <==> p in b
    ensures a == b
    decreases |a|
  {
    if a != [] {
      assert a[0] in b;
    }
    if b != [] {
      assert b[0] in a;
    }
    if a != [] {
      assert b != [] && b[0] in b;
      var k :| 0 <= k < |b| && b[k] == a[0];
      var m :| 0 <= m < |a| && a[m] == b[0];
      if k > 0 {
        assert Lt(b[0].first, a[0].first);
        assert m > 0 && Lt(a[0].first, b[0].first);
        LtTrichotomy(a[0].first, b[0].first);
        assert false;
      }
      forall p
        ensures p in a[1..] <==> p in b[1..]
      {
        if p in a[1..] {
          var i :| 0 <= i < |a[1..]| && a[1..][i] == p;
          assert p in b && p != b[0];
        }
        if p in b[1..] {
          var i :| 0 <= i < |b[1..]| && b[1..][i] == p;
          assert p in a && p != a[0];
        }
      }
      AscendingUnique(a[1..], b[1..]);
      assert a == [a[0]] + a[1..] && b == [b[0]] + b[1..];
    }
  }
}
