/** Sequences seen as bags, and sorting: what Go's sort package and SQL's ORDER BY promise. */
module Bags {

  function Filtered<T>(s: seq<T>, keep: T -> bool): (r: seq<T>)
    ensures |r| <= |s|
  {
    if s == [] then []
    else
      var front := Filtered(s[..|s| - 1], keep);
      if keep(s[|s| - 1]) then front + [s[|s| - 1]] else front
  }

  function Mapped<A, B>(s: seq<A>, f: A -> B): (r: seq<B>)
    ensures |r| == |s| && forall i :: 0 <= i < |s| ==> r[i] == f(s[i])
  {
    seq(|s|, i requires 0 <= i < |s| => f(s[i]))
  }

  lemma {:induction false} FilteredAppend<T>(a: seq<T>, b: seq<T>, keep: T -> bool)
    ensures Filtered(a + b, keep) == Filtered(a, keep) + Filtered(b, keep)
    decreases |b|
  {
    if b == [] {
      assert a + b == a;
    } else {
      assert (a + b)[..|a + b| - 1] == a + b[..|b| - 1];
      FilteredAppend(a, b[..|b| - 1], keep);
    }
  }

  lemma {:induction false} FilteredMembers<T>(s: seq<T>, keep: T -> bool)
    ensures forall x :: x in Filtered(s, keep) <==> x in s && keep(x)
  {
    if s != [] {
      FilteredMembers(s[..|s| - 1], keep);
      assert s == s[..|s| - 1] + [s[|s| - 1]];
    }
  }

  lemma {:induction false} FilteredAll<T>(s: seq<T>, keep: T -> bool)
    requires forall x :: x in s ==> keep(x)
    ensures Filtered(s, keep) == s
  {
    if s != [] {
      FilteredAll(s[..|s| - 1], keep);
    }
  }

  lemma {:induction false} FilteredNone<T>(s: seq<T>, keep: T -> bool)
    requires forall x :: x in s ==> !keep(x)
    ensures Filtered(s, keep) == []
  {
    if s != [] {
      FilteredNone(s[..|s| - 1], keep);
    }
  }

  lemma TakenOut<T>(s: seq<T>, i: nat)
    requires i < |s|
    ensures multiset(s) == multiset(s[..i] + s[i + 1..]) + multiset{s[i]}
  {
    assert s == s[..i] + [s[i]] + s[i + 1..];
  }

  /** Where `b` has the last element of `a`; without both, the rest agrees again. */
  lemma Matched<T>(a: seq<T>, b: seq<T>) returns (j: nat)
    requires multiset(a) == multiset(b) && a != []
    ensures j < |b| && b[j] == a[|a| - 1] && multiset(a[..|a| - 1]) == multiset(b[..j] + b[j + 1..])
  {
    var n := |a| - 1;
    assert a[n] in multiset(b);
    j :| 0 <= j < |b| && b[j] == a[n];
    TakenOut(a, n);
    assert a[..n] + a[n + 1..] == a[..n];
    TakenOut(b, j);
    assert multiset(a) - multiset{a[n]} == multiset(a[..n]);
    assert multiset(b) - multiset{b[j]} == multiset(b[..j] + b[j + 1..]);
  }

  lemma FilteredOne<T>(x: T, keep: T -> bool)
    ensures Filtered([x], keep) == if keep(x) then [x] else []
  {
    assert [x][..0] == [];
  }

  lemma {:induction false} FilteredCount<T>(s: seq<T>, keep: T -> bool, x: T)
    ensures multiset(Filtered(s, keep))[x] == if keep(x) then multiset(s)[x] else 0
  {
    if s != [] {
      var front, last := s[..|s| - 1], s[|s| - 1];
      assert s == front + [last];
      FilteredCount(front, keep, x);
    }
  }

  lemma {:induction false} FilteredPermutation<T(!new)>(a: seq<T>, b: seq<T>, keep: T -> bool)
    requires multiset(a) == multiset(b)
    ensures multiset(Filtered(a, keep)) == multiset(Filtered(b, keep))
  {
    var fa, fb := multiset(Filtered(a, keep)), multiset(Filtered(b, keep));
    forall x: T
      ensures fa[x] == fb[x]
    {
      FilteredCount(a, keep, x);
      FilteredCount(b, keep, x);
    }
    assert fa == fb;
  }

  lemma {:induction false} MappedPermutation<A, B>(a: seq<A>, b: seq<A>, f: A -> B)
    requires multiset(a) == multiset(b)
    ensures multiset(Mapped(a, f)) == multiset(Mapped(b, f))
    decreases |a|
  {
    SameSize(a, b);
    if a != [] {
      var n := |a| - 1;
      var j := Matched(a, b);
      var rest := b[..j] + b[j + 1..];
      MappedPermutation(a[..n], rest, f);
      TakenOut(Mapped(a, f), n);
      assert Mapped(a, f)[..n] + Mapped(a, f)[n + 1..] == Mapped(a[..n], f);
      TakenOut(Mapped(b, f), j);
      assert Mapped(b, f)[..j] + Mapped(b, f)[j + 1..] == Mapped(rest, f);
    }
  }

  lemma SameSize<T>(a: seq<T>, b: seq<T>)
    requires multiset(a) == multiset(b)
    ensures |a| == |b| && forall x :: x in a <==> x in b
  {
    assert |multiset(a)| == |a| && |multiset(b)| == |b|;
    assert forall x :: x in a <==> x in multiset(a);
    assert forall x :: x in b <==> x in multiset(b);
  }

  function SetOf<T>(s: seq<T>): set<T> {
    set x | x in s
  }

  lemma {:induction false} CountDistinct<T>(s: seq<T>)
    requires forall i, j :: 0 <= i < j < |s| ==> s[i] != s[j]
    ensures |SetOf(s)| == |s|
  {
    if s != [] {
      var n := |s| - 1;
      CountDistinct(s[..n]);
      assert s == s[..n] + [s[n]];
      assert SetOf(s) == SetOf(s[..n]) + {s[n]} && s[n] !in SetOf(s[..n]);
    }
  }

  lemma Snoc<T>(s: seq<T>, n: nat)
    requires n < |s|
    ensures s[..n + 1] == s[..n] + [s[n]]
  {
  }

  // ----- sorting -----

  ghost predicate TotalOrder<T(!new)>(le: (T, T) -> bool) {
    && (forall a, b :: le(a, b) || le(b, a))
    && (forall a, b, c :: le(a, b) && le(b, c) ==> le(a, c))
  }

  ghost predicate SortedBy<T>(s: seq<T>, le: (T, T) -> bool) {
    forall i, j :: 0 <= i < j < |s| ==> le(s[i], s[j])
  }

  lemma InsertedAt<T>(r: seq<T>, k: nat, x: T, le: (T, T) -> bool)
    requires k <= |r| && SortedBy(r, le)
    requires (forall i :: 0 <= i < k ==> le(r[i], x)) && (forall i :: k <= i < |r| ==> le(x, r[i]))
    ensures SortedBy(r[..k] + [x] + r[k..], le)
    ensures multiset(r[..k] + [x] + r[k..]) == multiset(r) + multiset{x}
  {
    assert r == r[..k] + r[k..];
  }

  /** Some sorted permutation; the order of equal elements is not promised. */
  method Sort<T(!new)>(s: seq<T>, le: (T, T) -> bool) returns (r: seq<T>)
    requires TotalOrder(le)
    ensures multiset(r) == multiset(s) && SortedBy(r, le)
  {
    r := [];
    for n := 0 to |s|
      invariant multiset(r) == multiset(s[..n]) && SortedBy(r, le)
    {
      var k := |r|;
      while k > 0 && !le(r[k - 1], s[n])
        invariant 0 <= k <= |r| && forall i :: k <= i < |r| ==> le(s[n], r[i])
      {
        k := k - 1;
      }
      Before(r, k, s[n], le);
      InsertedAt(r, k, s[n], le);
      r := r[..k] + [s[n]] + r[k..];
      assert s[..n + 1] == s[..n] + [s[n]];
    }
    assert s[..|s|] == s;
  }

  lemma Before<T(!new)>(r: seq<T>, k: nat, x: T, le: (T, T) -> bool)
    requires TotalOrder(le) && SortedBy(r, le) && k <= |r| && (k > 0 ==> le(r[k - 1], x))
    ensures forall i :: 0 <= i < k ==> le(r[i], x)
  {
    forall i | 0 <= i < k - 1
      ensures le(r[i], x)
    {
      assert le(r[i], r[k - 1]);
    }
  }
}
