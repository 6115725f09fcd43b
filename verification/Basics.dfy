/** Shared value types and a stable sort. */
module Basics {

  datatype Option<+T> = None | Some(value: T)

  function Get<K, V>(m: map<K, V>, k: K): Option<V> {
    if k in m then Some(m[k]) else None
  }

  predicate NoDuplicates<T(==)>(s: seq<T>) { forall i, j | 0 <= i < j < |s| :: s[i] != s[j] }

  predicate Ascending<T>(s: seq<T>, key: T -> int) {
    forall i, j | 0 <= i < j < |s| :: key(s[i]) <= key(s[j])
  }

  /** Stable insertion of `x` after every element whose key is no greater. */
  function InsertBy<T>(s: seq<T>, x: T, key: T -> int): (r: seq<T>)
    requires Ascending(s, key)
    ensures |r| == |s| + 1 && forall i | 0 <= i < |r| :: r[i] == x || r[i] in s
    ensures Ascending(r, key)
  {
    if s == [] || key(s[|s| - 1]) <= key(x) then s + [x]
    else InsertBy(s[..|s| - 1], x, key) + [s[|s| - 1]]
  }

  lemma {:induction false} InsertPermutes<T>(s: seq<T>, x: T, key: T -> int)
    requires Ascending(s, key)
    ensures multiset(InsertBy(s, x, key)) == multiset(s) + multiset{x}
  {
    if !(s == [] || key(s[|s| - 1]) <= key(x)) {
      assert s == s[..|s| - 1] + [s[|s| - 1]];
      InsertPermutes(s[..|s| - 1], x, key);
    }
  }

  function SortBy<T>(s: seq<T>, key: T -> int): (r: seq<T>)
    ensures Ascending(r, key)
  {
    if s == [] then [] else InsertBy(SortBy(s[..|s| - 1], key), s[|s| - 1], key)
  }

  lemma {:induction false} SortPermutes<T>(s: seq<T>, key: T -> int)
    ensures multiset(SortBy(s, key)) == multiset(s)
  {
    if s != [] {
      assert s == s[..|s| - 1] + [s[|s| - 1]];
      SortPermutes(s[..|s| - 1], key);
      InsertPermutes(SortBy(s[..|s| - 1], key), s[|s| - 1], key);
    }
  }

  lemma {:induction false} SortOfAscending<T>(s: seq<T>, key: T -> int)
    requires Ascending(s, key)
    ensures SortBy(s, key) == s
  {
    if s != [] {
      var init := s[..|s| - 1];
      SortOfAscending(init, key);
      assert init != [] ==> key(init[|init| - 1]) == key(s[|s| - 2]);
    }
  }

  lemma SameElements<T>(a: seq<T>, b: seq<T>)
    requires multiset(a) == multiset(b)
    ensures forall x :: x in a <==> x in b
    ensures NoDuplicates(a) ==> NoDuplicates(b)
  {
    assert forall x :: x in a <==> x in multiset(a);
    assert forall x :: x in b <==> x in multiset(b);
    if NoDuplicates(a) {
      NoDuplicatesCounts(a);
      forall i, j | 0 <= i < j < |b| ensures b[i] != b[j] {
        var rest := b[..j] + b[j + 1..];
        assert b == b[..j] + [b[j]] + b[j + 1..];
        assert multiset(b) == multiset(rest) + multiset{b[j]};
        assert multiset(b)[b[j]] <= 1;
        assert rest[i] == b[i] && b[i] in multiset(rest);
      }
    }
  }

  lemma {:induction false} NoDuplicatesCounts<T>(a: seq<T>)
    requires NoDuplicates(a)
    ensures forall x :: multiset(a)[x] <= 1
  {
    if a != [] {
      assert a == a[..|a| - 1] + [a[|a| - 1]];
      NoDuplicatesCounts(a[..|a| - 1]);
    }
  }
}
