/** `sorted(md_files, key=lambda file: file.prefix)` (build_ebook_v2.py,
    line 143): Python's stable sort, with strings compared code point by
    code point and a proper prefix sorting first. */
module Ordering {
  import opened Walk

  /** Python's `a <= b` on strings. */
  predicate LexLe(a: string, b: string)
    decreases |a|
  {
    |a| == 0 || (|b| > 0 && (a[0] < b[0] || (a[0] == b[0] && LexLe(a[1..], b[1..]))))
  }

  lemma {:induction false} LexLeReflexive(a: string)
    ensures LexLe(a, a)
    decreases |a|
  {
    if |a| > 0 { LexLeReflexive(a[1..]); }
  }

  lemma {:induction false} LexLeTotal(a: string, b: string)
    ensures LexLe(a, b) || LexLe(b, a)
    decreases |a|
  {
    if |a| > 0 && |b| > 0 && a[0] == b[0] { LexLeTotal(a[1..], b[1..]); }
  }

  lemma {:induction false} LexLeAntisymmetric(a: string, b: string)
    requires LexLe(a, b) && LexLe(b, a)
    ensures a == b
    decreases |a|
  {
    if |a| > 0 {
      LexLeAntisymmetric(a[1..], b[1..]);
      assert a == [a[0]] + a[1..] && b == [b[0]] + b[1..];
    }
  }

  lemma {:induction false} LexLeTransitive(a: string, b: string, c: string)
    requires LexLe(a, b) && LexLe(b, c)
    ensures LexLe(a, c)
    decreases |a|
  {
    if |a| > 0 && a[0] == b[0] && b[0] == c[0] { LexLeTransitive(a[1..], b[1..], c[1..]); }
  }

  /** Non-decreasing by prefix. */
  predicate SortedByPrefix(s: seq<Fragment>) {
    forall i, j :: 0 <= i < j < |s| ==> LexLe(s[i].prefix, s[j].prefix)
  }

  /** The fragments of `s` whose prefix is `p`, in their order in `s`. */
  function WithPrefix(s: seq<Fragment>, p: string): seq<Fragment> {
    if s == [] then []
    else (if s[0].prefix == p then [s[0]] else []) + WithPrefix(s[1..], p)
  }

  /** Inserts `f` before the first fragment whose prefix is not smaller than
      its own. */
  function Insert(f: Fragment, s: seq<Fragment>): seq<Fragment> {
    if s == [] || LexLe(f.prefix, s[0].prefix) then [f] + s
    else [s[0]] + Insert(f, s[1..])
  }

  /** The sorted list: each fragment is inserted ahead of the ones that
      follow it in the input and have the same prefix. */
  function SortByPrefix(s: seq<Fragment>): seq<Fragment> {
    if s == [] then [] else Insert(s[0], SortByPrefix(s[1..]))
  }

  lemma {:induction false} InsertPermutes(f: Fragment, s: seq<Fragment>)
    ensures multiset(Insert(f, s)) == multiset(s) + multiset{f}
  {
    if s != [] && !LexLe(f.prefix, s[0].prefix) {
      InsertPermutes(f, s[1..]);
      assert s == [s[0]] + s[1..];
    }
  }

  lemma {:induction false} InsertSorted(f: Fragment, s: seq<Fragment>)
    requires SortedByPrefix(s)
    ensures SortedByPrefix(Insert(f, s))
  {
    if s == [] || LexLe(f.prefix, s[0].prefix) {
      forall j | 0 < j < |s| + 1 ensures LexLe(f.prefix, ([f] + s)[j].prefix) {
        if j > 1 { LexLeTransitive(f.prefix, s[0].prefix, s[j - 1].prefix); }
      }
    } else {
      var rest := Insert(f, s[1..]);
      InsertSorted(f, s[1..]);
      InsertPermutes(f, s[1..]);
      LexLeTotal(f.prefix, s[0].prefix);
      forall j | 0 <= j < |rest| ensures LexLe(s[0].prefix, rest[j].prefix) {
        assert rest[j] in multiset(s[1..]) + multiset{f};
        if rest[j] != f {
          var k :| 0 <= k < |s[1..]| && s[1..][k] == rest[j];
          assert s[k + 1] == rest[j];
        }
      }
    }
  }

  /** The sorted list is a permutation of its input. */
  lemma {:induction false} SortPermutes(s: seq<Fragment>)
    ensures multiset(SortByPrefix(s)) == multiset(s)
  {
    if s != [] {
      SortPermutes(s[1..]);
      InsertPermutes(s[0], SortByPrefix(s[1..]));
      assert s == [s[0]] + s[1..];
    }
  }

  /** The sorted list is non-decreasing by prefix. */
  lemma {:induction false} SortSorts(s: seq<Fragment>)
    ensures SortedByPrefix(SortByPrefix(s))
  {
    if s != [] {
      SortSorts(s[1..]);
      InsertSorted(s[0], SortByPrefix(s[1..]));
    }
  }

  lemma {:induction false} InsertStable(f: Fragment, s: seq<Fragment>, p: string)
    ensures WithPrefix(Insert(f, s), p) == WithPrefix([f] + s, p)
  {
    if s != [] && !LexLe(f.prefix, s[0].prefix) {
      InsertStable(f, s[1..], p);
      LexLeReflexive(f.prefix);
      assert ([f] + s)[1..] == s;
      assert ([f] + s[1..])[1..] == s[1..];
      assert ([s[0]] + Insert(f, s[1..]))[1..] == Insert(f, s[1..]);
    }
  }

  /** The sort is stable: the fragments sharing any one prefix keep their
      input order. */
  lemma {:induction false} SortStable(s: seq<Fragment>, p: string)
    ensures WithPrefix(SortByPrefix(s), p) == WithPrefix(s, p)
  {
    if s != [] {
      SortStable(s[1..], p);
      InsertStable(s[0], SortByPrefix(s[1..]), p);
      assert ([s[0]] + SortByPrefix(s[1..]))[1..] == SortByPrefix(s[1..]);
    }
  }

  lemma {:induction false} WithPrefixMembers(s: seq<Fragment>, p: string)
    ensures forall x :: x in WithPrefix(s, p) ==> x in s && x.prefix == p
  {
    if s != [] { WithPrefixMembers(s[1..], p); }
  }

  lemma WithPrefixOfHead(s: seq<Fragment>)
    requires s != []
    ensures WithPrefix(s, s[0].prefix) != []
  {
  }

  lemma {:induction false} WithPrefixEmpty(s: seq<Fragment>, p: string)
    requires forall i :: 0 <= i < |s| ==> s[i].prefix != p
    ensures WithPrefix(s, p) == []
  {
    if s != [] { WithPrefixEmpty(s[1..], p); }
  }

  /** A sorted list is determined by what it holds under each prefix: two
      sorted lists that agree on `WithPrefix` for every prefix are equal. */
  lemma {:induction false} SortedUnique(a: seq<Fragment>, b: seq<Fragment>)
    requires SortedByPrefix(a) && SortedByPrefix(b)
    requires forall p :: WithPrefix(a, p) == WithPrefix(b, p)
    ensures a == b
    decreases |a| + |b|
  {
    if a == [] || b == [] {
      if a != [] { WithPrefixOfHead(a); }
      if b != [] { WithPrefixOfHead(b); }
    } else {
      var p, q := a[0].prefix, b[0].prefix;
      WithPrefixMembers(a, q);
      WithPrefixMembers(b, p);
      assert WithPrefix(a, p)[0] == a[0];
      assert WithPrefix(b, q)[0] == b[0];
      assert a[0] in b;
      assert b[0] in a;
      var k :| 0 <= k < |b| && b[k] == a[0];
      var m :| 0 <= m < |a| && a[m] == b[0];
      LexLeReflexive(p);
      LexLeReflexive(q);
      assert LexLe(q, p) && LexLe(p, q);
      LexLeAntisymmetric(p, q);
      assert a[0] == b[0];
      forall r ensures WithPrefix(a[1..], r) == WithPrefix(b[1..], r) {
        var head := if p == r then [a[0]] else [];
        assert WithPrefix(a, r) == head + WithPrefix(a[1..], r);
        assert WithPrefix(b, r) == head + WithPrefix(b[1..], r);
        assert (head + WithPrefix(a[1..], r))[|head|..] == WithPrefix(a[1..], r);
        assert (head + WithPrefix(b[1..], r))[|head|..] == WithPrefix(b[1..], r);
      }
      SortedUnique(a[1..], b[1..]);
      assert a == [a[0]] + a[1..] && b == [b[0]] + b[1..];
    }
  }

  /** `SortByPrefix` is the stable sort: any list that is sorted and keeps,
      for every prefix, the input order of the fragments with that prefix
      is exactly the list `SortByPrefix` returns. */
  lemma SortIsTheStableSort(s: seq<Fragment>, t: seq<Fragment>)
    requires SortedByPrefix(t)
    requires forall p :: WithPrefix(t, p) == WithPrefix(s, p)
    ensures t == SortByPrefix(s)
  {
    SortSorts(s);
    forall p ensures WithPrefix(t, p) == WithPrefix(SortByPrefix(s), p) {
      SortStable(s, p);
    }
    SortedUnique(t, SortByPrefix(s));
  }

  /** A list already sorted by prefix is left as it is. */
  lemma SortedIsFixed(s: seq<Fragment>)
    requires SortedByPrefix(s)
    ensures SortByPrefix(s) == s
  {
    SortIsTheStableSort(s, s);
  }

  /** No two fragments share a prefix. */
  predicate DistinctPrefixes(s: seq<Fragment>) {
    forall i, j :: 0 <= i < j < |s| ==> s[i].prefix != s[j].prefix
  }

  lemma {:induction false} WithPrefixCounts(s: seq<Fragment>, p: string, x: Fragment)
    ensures multiset(WithPrefix(s, p))[x] == if x.prefix == p then multiset(s)[x] else 0
  {
    if s != [] {
      WithPrefixCounts(s[1..], p, x);
      assert s == [s[0]] + s[1..];
    }
  }

  lemma {:induction false} WithPrefixAtMostOne(s: seq<Fragment>, p: string)
    requires DistinctPrefixes(s)
    ensures |WithPrefix(s, p)| <= 1
  {
    if s != [] {
      WithPrefixAtMostOne(s[1..], p);
      if s[0].prefix == p {
        WithPrefixEmpty(s[1..], p);
      }
    }
  }

  /** When no two fragments share a prefix, the sorted list depends only on
      which fragments there are, not on the order the walk found them in. */
  lemma SortIgnoresInputOrder(s: seq<Fragment>, t: seq<Fragment>)
    requires multiset(s) == multiset(t)
    requires DistinctPrefixes(s)
    ensures SortByPrefix(s) == SortByPrefix(t)
  {
    forall p ensures WithPrefix(t, p) == WithPrefix(s, p) {
      var ws, wt := WithPrefix(s, p), WithPrefix(t, p);
      forall x ensures multiset(ws)[x] == multiset(wt)[x] {
        WithPrefixCounts(s, p, x);
        WithPrefixCounts(t, p, x);
      }
      assert multiset(ws) == multiset(wt);
      WithPrefixAtMostOne(s, p);
      assert |wt| == |multiset(wt)| == |multiset(ws)| == |ws|;
      if |ws| == 1 {
        assert ws == [ws[0]] && wt == [wt[0]];
        assert wt[0] in multiset(ws);
      }
    }
    SortSorts(t);
    forall p ensures WithPrefix(SortByPrefix(t), p) == WithPrefix(s, p) {
      SortStable(t, p);
    }
    SortIsTheStableSort(s, SortByPrefix(t));
  }
}
