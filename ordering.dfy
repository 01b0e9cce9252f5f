/** `ORDER BY major, minor` over TEXT columns: a two-part key compared under
    SQLite's BINARY collation, and an insertion sort that yields the rows in
    that order. SQL leaves the order of rows with equal keys open; the sort
    here keeps them in table order, one of the orders SQL allows. */
module Ordering {
  import opened Strings

  datatype Key = Key(major: string, minor: string)

  /** `a` may come before `b` in `ORDER BY major ASC, minor ASC`. */
  predicate KeyLeq(a: Key, b: Key)
  {
    Lt(a.major, b.major) || (a.major == b.major && Leq(a.minor, b.minor))
  }

  ghost predicate SortedBy<T>(s: seq<T>, key: T -> Key)
  {
    forall i, j :: 0 <= i < j < |s| ==> KeyLeq(key(s[i]), key(s[j]))
  }

  lemma KeyLeqTotal(a: Key, b: Key)
    ensures KeyLeq(a, b) || KeyLeq(b, a)
  {
    LtTotal(a.major, b.major);
    LtTotal(a.minor, b.minor);
  }

  lemma KeyLeqTransitive(a: Key, b: Key, c: Key)
    requires KeyLeq(a, b) && KeyLeq(b, c)
    ensures KeyLeq(a, c)
  {
    if Lt(a.major, b.major) && Lt(b.major, c.major) {
      LtTransitive(a.major, b.major, c.major);
    }
    if a.minor != b.minor && b.minor != c.minor && Lt(a.minor, b.minor) && Lt(b.minor, c.minor) {
      LtTransitive(a.minor, b.minor, c.minor);
    }
  }

  /** Inserts `x` into the sorted `s` before the first element whose key is
      not smaller, so `x` precedes the elements whose key equals its own. */
  function InsertSorted<T>(x: T, s: seq<T>, key: T -> Key): (r: seq<T>)
    requires SortedBy(s, key)
    ensures SortedBy(r, key)
    ensures multiset(r) == multiset(s) + multiset{x}
  {
    if s == [] then [x]
    else if KeyLeq(key(x), key(s[0])) then
      KeyLeqsFrom(x, s, key);
      [x] + s
    else
      var rest := InsertSorted(x, s[1..], key);
      assert s == [s[0]] + s[1..];
      KeyLeqTotal(key(x), key(s[0]));
      FirstBeforeRest(s[0], s, rest, x, key);
      [s[0]] + rest
  }

  /** A key no larger than the first key of a sorted sequence is no larger
      than any of its keys. */
  lemma KeyLeqsFrom<T>(x: T, s: seq<T>, key: T -> Key)
    requires SortedBy(s, key) && s != [] && KeyLeq(key(x), key(s[0]))
    ensures SortedBy([x] + s, key)
  {
    var r := [x] + s;
    forall i, j | 0 <= i < j < |r|
      ensures KeyLeq(key(r[i]), key(r[j]))
    {
      if i == 0 && j > 1 {
        KeyLeqTransitive(key(x), key(s[0]), key(s[j - 1]));
      }
    }
  }

  lemma FirstBeforeRest<T>(first: T, s: seq<T>, rest: seq<T>, x: T, key: T -> Key)
    requires SortedBy(s, key) && s != [] && first == s[0]
    requires SortedBy(rest, key) && multiset(rest) == multiset(s[1..]) + multiset{x}
    requires KeyLeq(key(first), key(x))
    ensures SortedBy([first] + rest, key)
  {
    var r := [first] + rest;
    forall i, j | 0 <= i < j < |r|
      ensures KeyLeq(key(r[i]), key(r[j]))
    {
      if i == 0 {
        var y := rest[j - 1];
        assert y in multiset(rest);
        if y != x {
          assert y in multiset(s[1..]);
          var k :| 0 <= k < |s[1..]| && s[1..][k] == y;
          assert s[k + 1] == y;
        }
      }
    }
  }

  /** The rows of `s` in `ORDER BY` order of `key`. */
  function SortBy<T>(s: seq<T>, key: T -> Key): (r: seq<T>)
    ensures SortedBy(r, key)
    ensures multiset(r) == multiset(s)
  {
    if s == [] then []
    else
      assert s == [s[0]] + s[1..];
      InsertSorted(s[0], SortBy(s[1..], key), key)
  }

  /** Sorting keeps exactly the rows it is given. */
  lemma SortByMembers<T>(s: seq<T>, key: T -> Key, x: T)
    ensures x in SortBy(s, key) <==> x in s
  {
    assert x in SortBy(s, key) <==> x in multiset(SortBy(s, key));
    assert x in s <==> x in multiset(s);
  }
}
