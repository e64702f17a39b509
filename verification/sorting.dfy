/** Ordering sequences newest-first by a string date key, as
    `sort((a, b) => b.date.localeCompare(a.date))` does. */
module Sorting {
  import opened StringOrder

  /** Every element's key is at least the key of every later element. */
  predicate SortedDesc<T>(s: seq<T>, key: T -> string) {
    forall i, j :: 0 <= i < j < |s| ==> Le(key(s[j]), key(s[i]))
  }

  /** No element occurs twice. */
  predicate NoDuplicates<T(==)>(s: seq<T>) {
    forall x | x in s :: multiset(s)[x] == 1
  }

  /** The comparator `(a, b) => key(b).localeCompare(key(a))`: negative when
      `a` must come before `b`. */
  function NewestFirst<T>(key: T -> string, a: T, b: T): int {
    Compare(key(b), key(a))
  }

  /** A key bound for the head of a sorted sequence bounds every element. */
  lemma HeadBoundsAll<T>(s: seq<T>, key: T -> string, bound: string)
    requires SortedDesc(s, key)
    requires |s| > 0 && Le(key(s[0]), bound)
    ensures forall j :: 0 <= j < |s| ==> Le(key(s[j]), bound)
  {
    forall j | 0 <= j < |s|
      ensures Le(key(s[j]), bound)
    {
      if j > 0 {
        LeTransitive(key(s[j]), key(s[0]), bound);
      }
    }
  }

  /** Prepending an element no older than any other keeps the order. */
  lemma ConsSorted<T>(x: T, s: seq<T>, key: T -> string)
    requires SortedDesc(s, key)
    requires forall j :: 0 <= j < |s| ==> Le(key(s[j]), key(x))
    ensures SortedDesc([x] + s, key)
  {
  }

  /** Order carries over to a sequence whose keys match position by position. */
  lemma SortedTransfer<A, B>(a: seq<A>, keyA: A -> string, b: seq<B>, keyB: B -> string)
    requires SortedDesc(a, keyA) && |a| == |b|
    requires forall i :: 0 <= i < |b| ==> keyB(b[i]) == keyA(a[i])
    ensures SortedDesc(b, keyB)
  {
  }

  /** Whatever is drawn from the tail of a newest-first sequence is no newer
      than its head. */
  lemma DrawnFromTailBounded<T>(s: seq<T>, t: seq<T>, key: T -> string)
    requires SortedDesc(s, key) && |s| > 0
    requires multiset(t) <= multiset(s[1..])
    ensures forall j :: 0 <= j < |t| ==> Le(key(t[j]), key(s[0]))
  {
    forall j | 0 <= j < |t|
      ensures Le(key(t[j]), key(s[0]))
    {
      assert t[j] in multiset(t);
      var k :| 0 <= k < |s[1..]| && s[1..][k] == t[j];
      assert s[k + 1] == t[j];
    }
  }

  /** Puts `x` in front of the first element that must come after it. */
  function Insert<T>(x: T, s: seq<T>, key: T -> string): (r: seq<T>)
    requires SortedDesc(s, key)
    ensures SortedDesc(r, key)
    ensures multiset(r) == multiset(s) + multiset{x}
    ensures |r| == |s| + 1
  {
    if |s| == 0 then [x]
    else if NewestFirst(key, x, s[0]) < 0 then
      LeTotal(key(x), key(s[0]));
      HeadBoundsAll(s, key, key(x));
      [x] + s
    else
      assert s == [s[0]] + s[1..];
      var tail := Insert(x, s[1..], key);
      InsertTailBound(x, s, key, tail);
      [s[0]] + tail
  }

  /** The head of `s` bounds every element of the insertion into its tail. */
  lemma InsertTailBound<T>(x: T, s: seq<T>, key: T -> string, tail: seq<T>)
    requires SortedDesc(s, key) && |s| > 0
    requires NewestFirst(key, x, s[0]) >= 0
    requires multiset(tail) == multiset(s[1..]) + multiset{x}
    ensures forall j :: 0 <= j < |tail| ==> Le(key(tail[j]), key(s[0]))
  {
    forall j | 0 <= j < |tail|
      ensures Le(key(tail[j]), key(s[0]))
    {
      assert tail[j] in multiset(tail);
      if tail[j] == x {
        LeReflexive(key(x));
      } else {
        assert tail[j] in multiset(s[1..]);
        var k :| 0 <= k < |s[1..]| && s[1..][k] == tail[j];
        assert s[k + 1] == tail[j];
      }
    }
  }

  /** Insertion sort, newest first. */
  function Sort<T>(s: seq<T>, key: T -> string): (r: seq<T>)
    ensures SortedDesc(r, key)
    ensures multiset(r) == multiset(s)
    ensures |r| == |s|
  {
    if |s| == 0 then []
    else
      assert s == [s[0]] + s[1..];
      Insert(s[0], Sort(s[1..], key), key)
  }

  /** Reordering keeps a sequence free of duplicates. */
  lemma PermutationNoDuplicates<T>(a: seq<T>, b: seq<T>)
    requires multiset(a) == multiset(b)
    requires NoDuplicates(a)
    ensures NoDuplicates(b)
  {
  }

  /** The head of a newest-first sequence carries the greatest key. */
  lemma HeadIsNewest<T>(s: seq<T>, key: T -> string)
    requires |s| > 0
    ensures SortedDesc(s, key) ==> forall x :: x in s ==> Le(key(x), key(s[0]))
  {
    LeReflexive(key(s[0]));
  }
}
