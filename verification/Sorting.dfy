/** The order of strings and the sorted form of a list, whatever algorithm produces it (Go's sort.Strings). */
module Sorting {

  predicate Leq(a: string, b: string)
  {
    a == "" || (b != "" && (a[0] < b[0] || (a[0] == b[0] && Leq(a[1..], b[1..]))))
  }

  /** The first n characters are the same. */
  predicate Agree(a: string, b: string, n: nat)
    requires n <= |a| && n <= |b|
  {
    forall i | 0 <= i < n :: a[i] == b[i]
  }

  /** The order compares the first characters that differ; a string is below its extensions. */
  lemma {:induction false} LeqExactly(a: string, b: string, n: nat)
    requires n <= |a| && n <= |b| && Agree(a, b, n)
    requires (n < |a| && n < |b|) ==> a[n] != b[n]
    ensures Leq(a, b) <==> n == |a| || (n < |b| && a[n] < b[n])
  {
    if n > 0 {
      assert Agree(a[1..], b[1..], n - 1);
      LeqExactly(a[1..], b[1..], n - 1);
    }
  }

  lemma {:induction false} LeqTotal(a: string, b: string)
    ensures Leq(a, b) || Leq(b, a)
    ensures Leq(a, b) && Leq(b, a) ==> a == b
  {
    if a != "" && b != "" {
      LeqTotal(a[1..], b[1..]);
      assert a == [a[0]] + a[1..] && b == [b[0]] + b[1..];
    }
  }

  lemma {:induction false} LeqTransitive(a: string, b: string, c: string)
    requires Leq(a, b) && Leq(b, c)
    ensures Leq(a, c)
  {
    if a != "" && a[0] == b[0] == c[0] {
      LeqTransitive(a[1..], b[1..], c[1..]);
    }
  }

  predicate BelowAll(x: string, s: seq<string>)
  {
    forall i | 0 <= i < |s| :: Leq(x, s[i])
  }

  predicate Sorted(s: seq<string>)
  {
    s == [] || (BelowAll(s[0], s[1..]) && Sorted(s[1..]))
  }

  function Insert(x: string, s: seq<string>): seq<string>
  {
    if s == [] then [x] else if Leq(x, s[0]) then [x] + s else [s[0]] + Insert(x, s[1..])
  }

  function SortStrings(s: seq<string>): seq<string>
  {
    if s == [] then [] else Insert(s[0], SortStrings(s[1..]))
  }

  lemma BelowAllTransitive(x: string, y: string, s: seq<string>)
    requires Leq(x, y) && BelowAll(y, s)
    ensures BelowAll(x, s)
  {
    forall i | 0 <= i < |s|
      ensures Leq(x, s[i])
    {
      LeqTransitive(x, y, s[i]);
    }
  }

  lemma {:induction false} InsertStaysAbove(y: string, x: string, s: seq<string>)
    requires Leq(y, x) && BelowAll(y, s)
    ensures BelowAll(y, Insert(x, s))
  {
    if s != [] && !Leq(x, s[0]) {
      InsertStaysAbove(y, x, s[1..]);
    }
  }

  lemma {:induction false} InsertSorts(x: string, s: seq<string>)
    requires Sorted(s)
    ensures Sorted(Insert(x, s)) && multiset(Insert(x, s)) == multiset{x} + multiset(s)
  {
    if s != [] {
      assert s == [s[0]] + s[1..];
      if Leq(x, s[0]) {
        BelowAllTransitive(x, s[0], s[1..]);
        assert ([x] + s)[1..] == s;
      } else {
        InsertSorts(x, s[1..]);
        LeqTotal(x, s[0]);
        InsertStaysAbove(s[0], x, s[1..]);
        assert ([s[0]] + Insert(x, s[1..]))[1..] == Insert(x, s[1..]);
      }
    }
  }

  /** The sorted form is a sorted rearrangement. */
  lemma {:induction false} SortStringsSorts(s: seq<string>)
    ensures Sorted(SortStrings(s)) && multiset(SortStrings(s)) == multiset(s)
  {
    if s != [] {
      SortStringsSorts(s[1..]);
      InsertSorts(s[0], SortStrings(s[1..]));
      assert s == [s[0]] + s[1..];
    }
  }

  lemma LeastFirst(s: seq<string>, x: string)
    requires Sorted(s) && x in s
    ensures Leq(s[0], x)
  {
    LeqTotal(x, x);
  }

  lemma SameLeast(a: seq<string>, b: seq<string>)
    requires Sorted(a) && Sorted(b) && multiset(a) == multiset(b) && a != []
    ensures b != [] && a[0] == b[0]
  {
    assert a[0] in multiset(b);
    assert b[0] in multiset(a);
    LeastFirst(a, b[0]);
    LeastFirst(b, a[0]);
    LeqTotal(a[0], b[0]);
  }

  lemma TailOf(s: seq<string>)
    requires s != []
    ensures multiset(s[1..]) == multiset(s) - multiset{s[0]}
  {
    assert s == [s[0]] + s[1..];
  }

  /** There is only one: any sorting algorithm returns the same list. */
  lemma {:induction false} SortedIsUnique(a: seq<string>, b: seq<string>)
    requires Sorted(a) && Sorted(b) && multiset(a) == multiset(b)
    ensures a == b
  {
    if a == [] {
      assert |b| == |multiset(b)| == 0;
    } else {
      SameLeast(a, b);
      TailOf(a);
      TailOf(b);
      SortedIsUnique(a[1..], b[1..]);
      assert a == [a[0]] + a[1..] && b == [b[0]] + b[1..];
    }
  }

  /** Rearranging a list does not change its sorted form. */
  lemma SameElementsSortAlike(a: seq<string>, b: seq<string>)
    requires multiset(a) == multiset(b)
    ensures SortStrings(a) == SortStrings(b)
  {
    SortStringsSorts(a);
    SortStringsSorts(b);
    SortedIsUnique(SortStrings(a), SortStrings(b));
  }
}
