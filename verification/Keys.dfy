/** Keys in byte order, and the pages of an ordered listing. A character stands for a byte of the key. */
module Keys {
  predicate Less(a: string, b: string) {
    b != "" && (a == "" || a[0] < b[0] || (a[0] == b[0] && Less(a[1..], b[1..])))
  }

  /** `a` and `b` have the same first `n` characters, and then `a` ends or goes on with the smaller one. */
  predicate Differs(a: string, b: string, n: nat) {
    n <= |a| && n < |b| && a[..n] == b[..n] && (n == |a| || a[n] as int < b[n] as int)
  }

  /** The order is that of the bytes: the first difference decides, and a string comes before its extensions. */
  lemma {:induction false} LessExactlyWhen(a: string, b: string)
    ensures Less(a, b) <==> exists n: nat :: Differs(a, b, n)
    decreases |a|
  {
    if a == "" || b == "" || a[0] != b[0] {
      forall n: nat
        ensures Differs(a, b, n) ==> n == 0 || (a != "" && b != "" && a[0] == b[0])
      {
        FirstAgrees(a, b, n);
      }
      assert b != "" && (a == "" || a[0] < b[0]) ==> Differs(a, b, 0);
    } else {
      LessExactlyWhen(a[1..], b[1..]);
      forall n: nat
        ensures Differs(a[1..], b[1..], n) <==> Differs(a, b, n + 1)
      {
        if n <= |a[1..]| && n < |b[1..]| {
          assert a[..n + 1] == [a[0]] + a[1..][..n] && b[..n + 1] == [b[0]] + b[1..][..n];
        }
      }
      assert !Differs(a, b, 0);
      assert forall n: nat :: n > 0 && Differs(a, b, n) ==> Differs(a[1..], b[1..], n - 1);
    }
  }

  lemma FirstAgrees(a: string, b: string, n: nat)
    ensures Differs(a, b, n) && n > 0 ==> a != "" && b != "" && a[..1] == b[..1] && a[0] == b[0]
  {
    if Differs(a, b, n) && n > 0 {
      assert a[..1] == a[..n][..1] && b[..1] == b[..n][..1];
      assert a[..1][0] == a[0] && b[..1][0] == b[0];
    }
  }

  lemma {:induction false} LessTotal(a: string, b: string)
    ensures Less(a, b) || a == b || Less(b, a)
    decreases |a|
  {
    if a != "" && b != "" && a[0] == b[0] {
      LessTotal(a[1..], b[1..]);
      assert a == [a[0]] + a[1..] && b == [b[0]] + b[1..];
    }
  }

  lemma {:induction false} LessIrreflexive(a: string)
    ensures !Less(a, a)
    decreases |a|
  {
    if a != "" {
      LessIrreflexive(a[1..]);
    }
  }

  lemma {:induction false} LessTransitive(a: string, b: string, c: string)
    requires Less(a, b) && Less(b, c)
    ensures Less(a, c)
    decreases |a|
  {
    if a != "" && a[0] == b[0] && b[0] == c[0] {
      LessTransitive(a[1..], b[1..], c[1..]);
    }
  }

  /** Putting the same prefix in front keeps the order. */
  lemma {:induction false} LessPrefixed(p: string, a: string, b: string)
    ensures Less(p + a, p + b) <==> Less(a, b)
    decreases |p|
  {
    if p == "" {
      assert p + a == a && p + b == b;
    } else {
      LessPrefixed(p[1..], a, b);
      assert (p + a)[1..] == p[1..] + a && (p + b)[1..] == p[1..] + b;
    }
  }

  /* ---------- Ascending enumerations ---------- */

  ghost predicate Ascending(xs: seq<string>) {
    forall i, j :: 0 <= i < j < |xs| ==> Less(xs[i], xs[j])
  }

  /** `xs` lists the elements of `s`, strictly ascending. */
  ghost predicate Enumerates(xs: seq<string>, s: set<string>) {
    Ascending(xs) && (forall x :: x in xs <==> x in s)
  }

  ghost predicate Least(m: string, s: set<string>) {
    m in s && forall x :: x in s && x != m ==> Less(m, x)
  }

  lemma {:induction false} LeastExists(s: set<string>) returns (m: string)
    requires s != {}
    ensures Least(m, s)
    decreases |s|
  {
    var x :| x in s;
    var rest := s - {x};
    m := x;
    if rest != {} {
      var r := LeastExists(rest);
      LessTotal(x, r);
      if Less(r, x) {
        m := r;
      } else {
        forall y | y in s && y != x
          ensures Less(x, y)
        {
          if y != r { LessTransitive(x, r, y); }
        }
      }
    }
  }

  lemma LeastUnique(m: string, n: string, s: set<string>)
    requires Least(m, s) && Least(n, s)
    ensures m == n
  {
    if m != n {
      LessTransitive(m, n, m);
      LessIrreflexive(m);
    }
  }

  ghost function Sorted(s: set<string>): (xs: seq<string>)
    ensures |xs| == |s|
    decreases |s|
  {
    if s == {} then [] else [LeastOf(s)] + Sorted(s - {LeastOf(s)})
  }

  ghost function LeastOf(s: set<string>): (m: string)
    requires s != {}
    ensures Least(m, s)
  {
    assert exists m :: Least(m, s) by { var m := LeastExists(s); }
    var m :| Least(m, s); m
  }

  lemma {:induction false} SortedEnumerates(s: set<string>)
    ensures Enumerates(Sorted(s), s)
    decreases |s|
  {
    if s != {} {
      var m, rest := LeastOf(s), Sorted(s - {LeastOf(s)});
      SortedEnumerates(s - {m});
      assert forall i :: 0 <= i < |rest| ==> rest[i] in s - {m};
      assert forall i :: 0 <= i < |rest| ==> Less(m, rest[i]);
    }
  }

  /** There is only one way to enumerate a set. */
  lemma {:induction false} EnumerationUnique(xs: seq<string>, ys: seq<string>, s: set<string>)
    requires Enumerates(xs, s) && Enumerates(ys, s)
    ensures xs == ys
    decreases |xs|
  {
    assert ys != [] ==> ys[0] in s;
    if xs != [] {
      assert xs[0] in s;
      assert Least(xs[0], s) by { FirstIsLeast(xs, s); }
      assert Least(ys[0], s) by { FirstIsLeast(ys, s); }
      LeastUnique(xs[0], ys[0], s);
      TailEnumerates(xs, s);
      TailEnumerates(ys, s);
      EnumerationUnique(xs[1..], ys[1..], s - {xs[0]});
    }
  }

  lemma FirstIsLeast(xs: seq<string>, s: set<string>)
    requires Enumerates(xs, s) && xs != []
    ensures Least(xs[0], s)
  {
    forall x | x in s && x != xs[0]
      ensures Less(xs[0], x)
    {
      var i :| 0 <= i < |xs| && xs[i] == x;
    }
  }

  lemma TailEnumerates(xs: seq<string>, s: set<string>)
    requires Enumerates(xs, s) && xs != []
    ensures Enumerates(xs[1..], s - {xs[0]})
  {
    forall x | x in xs[1..]
      ensures x != xs[0]
    {
      var i :| 0 < i < |xs| && xs[i] == x;
      LessIrreflexive(x);
    }
  }

  /* ---------- Pages ---------- */

  ghost function Matching(keys: set<string>, prefix: string, after: string): set<string> {
    set k | k in keys && prefix <= k && (after == "" || Less(after, k))
  }

  function Take(xs: seq<string>, n: nat): seq<string> {
    if |xs| <= n then xs else xs[..n]
  }

  /** One page of an ordered listing: the first `limit` matching keys. */
  ghost function Page(keys: set<string>, prefix: string, after: string, limit: nat): seq<string> {
    Take(Sorted(Matching(keys, prefix, after)), limit)
  }

  /** A page is full whenever there are keys enough. */
  lemma PageSize(keys: set<string>, prefix: string, after: string, limit: nat)
    ensures |Page(keys, prefix, after, limit)|
         == if |Matching(keys, prefix, after)| < limit then |Matching(keys, prefix, after)| else limit
  {
    hide Matching, Sorted;
  }

  /** Beyond the n-th element of an enumeration lie exactly the elements greater than it. */
  lemma EnumeratesBeyond(xs: seq<string>, s: set<string>, n: nat, beyond: set<string>)
    requires Enumerates(xs, s) && 0 < n <= |xs|
    requires forall k :: k in beyond <==> k in s && Less(xs[n - 1], k)
    ensures Enumerates(xs[n..], beyond)
  {
    var last := xs[n - 1];
    LessIrreflexive(last);
    forall k | k in beyond
      ensures k in xs[n..]
    {
      var i :| 0 <= i < |xs| && xs[i] == k;
      if i < n - 1 {
        LessTransitive(last, k, last);
      }
      assert k == xs[n..][i - n];
    }
    forall k | k in xs[n..]
      ensures k in beyond
    {
      var i :| n <= i < |xs| && xs[i] == k;
      assert Less(last, k) && xs[i] in s;
    }
  }

  lemma AfterLast(keys: set<string>, prefix: string, after: string, n: nat)
    requires "" !in keys && 0 < n <= |Sorted(Matching(keys, prefix, after))|
    ensures var xs := Sorted(Matching(keys, prefix, after));
            && Sorted(Matching(keys, prefix, xs[n - 1])) == xs[n..]
            && Matching(keys, prefix, xs[n - 1]) < Matching(keys, prefix, after)
  {
    var m := Matching(keys, prefix, after);
    var xs := Sorted(m);
    SortedEnumerates(m);
    var last := xs[n - 1];
    assert last in m;
    LessIrreflexive(last);
    var rest := Matching(keys, prefix, last);
    forall k | k in keys && after != "" && Less(last, k)
      ensures Less(after, k)
    {
      LessTransitive(after, last, k);
    }
    assert forall k :: k in rest <==> k in m && Less(last, k);
    hide Sorted, Matching, Enumerates;
    EnumeratesBeyond(xs, m, n, rest);
    SortedEnumerates(rest);
    EnumerationUnique(xs[n..], Sorted(rest), rest);
    assert last !in rest;
  }

  /** Listing again and again from the last key of the previous page, until a page is empty. */
  ghost function AllPages(keys: set<string>, prefix: string, after: string, limit: nat): seq<string>
    requires limit > 0 && "" !in keys
    decreases |Matching(keys, prefix, after)|
  {
    var page := Page(keys, prefix, after, limit);
    if page == [] then [] else
      AfterLast(keys, prefix, after, |page|);
      SmallerSet(Matching(keys, prefix, page[|page| - 1]), Matching(keys, prefix, after));
      page + AllPages(keys, prefix, page[|page| - 1], limit)
  }

  lemma SmallerSet(a: set<string>, b: set<string>)
    requires a < b
    ensures |a| < |b|
  {
    var x :| x in b && x !in a;
    assert |b - {x}| == |b| - 1;
    Subset(a, b - {x});
  }

  lemma {:induction false} Subset(a: set<string>, b: set<string>)
    requires a <= b
    ensures |a| <= |b|
    decreases |a|
  {
    if a != {} {
      var x :| x in a;
      Subset(a - {x}, b - {x});
    }
  }

  lemma {:induction false} PagesConcatenate(keys: set<string>, prefix: string, after: string, limit: nat)
    requires limit > 0 && "" !in keys
    ensures AllPages(keys, prefix, after, limit) == Sorted(Matching(keys, prefix, after))
    decreases |Matching(keys, prefix, after)|
  {
    hide Sorted, Matching;
    var page := Page(keys, prefix, after, limit);
    if page != [] {
      AfterLast(keys, prefix, after, |page|);
      var last := page[|page| - 1];
      SmallerSet(Matching(keys, prefix, last), Matching(keys, prefix, after));
      PagesConcatenate(keys, prefix, last, limit);
      var xs := Sorted(Matching(keys, prefix, after));
      assert page == xs[..|page|];
      assert xs == xs[..|page|] + xs[|page|..];
    }
  }

  /** Main result: for any page size, paging ends and yields exactly the keys with the prefix, each once, in
      strictly ascending byte order. */
  lemma PagingEnumerates(keys: set<string>, prefix: string, limit: nat)
    requires limit > 0 && "" !in keys
    ensures Enumerates(AllPages(keys, prefix, "", limit), set k | k in keys && prefix <= k)
  {
    PagesConcatenate(keys, prefix, "", limit);
    SortedEnumerates(Matching(keys, prefix, ""));
  }
}
