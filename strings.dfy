/** Text as SQLite stores and compares it: the BINARY collation (the default for
    TEXT columns) and the SUBSTR function used to rebuild sortable date keys. */
module Strings {

  /** `a < b` under SQLite's BINARY collation: byte-wise comparison, a proper
      prefix sorting first. On UTF-8 text, byte order is code-point order, so
      comparing characters gives the same answer. */
  predicate Lt(a: string, b: string)
  {
    if |b| == 0 then false
    else if |a| == 0 then true
    else a[0] < b[0] || (a[0] == b[0] && Lt(a[1..], b[1..]))
  }

  /** `a <= b` under the BINARY collation. */
  predicate Leq(a: string, b: string)
  {
    a == b || Lt(a, b)
  }

  /** SQLite `SUBSTR(s, start, count)` for a positive 1-based `start`: up to
      `count` characters from position `start`, cut short at the end of `s`. */
  function Substr(s: string, start: nat, count: nat): (r: string)
    requires start >= 1
    ensures |r| <= count
    ensures start - 1 + count <= |s| ==> r == s[start - 1 .. start - 1 + count]
    ensures start - 1 >= |s| ==> r == ""
  {
    var from := if start - 1 <= |s| then start - 1 else |s|;
    var to := if from + count <= |s| then from + count else |s|;
    s[from..to]
  }

  lemma {:induction false} LtIrreflexive(a: string)
    ensures !Lt(a, a)
  {
    if |a| > 0 {
      LtIrreflexive(a[1..]);
    }
  }

  lemma {:induction false} LtTransitive(a: string, b: string, c: string)
    requires Lt(a, b) && Lt(b, c)
    ensures Lt(a, c)
  {
    if |a| > 0 && a[0] == b[0] && b[0] == c[0] {
      LtTransitive(a[1..], b[1..], c[1..]);
    }
  }

  /** The collation is a strict total order: any two distinct strings compare. */
  lemma {:induction false} LtTotal(a: string, b: string)
    ensures a == b || Lt(a, b) || Lt(b, a)
  {
    if |a| > 0 && |b| > 0 && a[0] == b[0] {
      LtTotal(a[1..], b[1..]);
      if a[1..] == b[1..] {
        assert a == [a[0]] + a[1..] && b == [b[0]] + b[1..];
      }
    }
  }

  lemma LtAsymmetric(a: string, b: string)
    requires Lt(a, b)
    ensures !Lt(b, a)
  {
    if Lt(b, a) {
      LtTransitive(a, b, a);
      LtIrreflexive(a);
    }
  }

  /** Comparing two concatenations whose first parts have equal length decides
      on the first parts, and on the second parts only when the first are equal. */
  lemma {:induction false} LtConcat(p1: string, q1: string, p2: string, q2: string)
    requires |p1| == |p2|
    ensures Lt(p1 + q1, p2 + q2) <==> Lt(p1, p2) || (p1 == p2 && Lt(q1, q2))
  {
    if |p1| == 0 {
      assert p1 + q1 == q1 && p2 + q2 == q2;
    } else {
      assert (p1 + q1)[1..] == p1[1..] + q1;
      assert (p2 + q2)[1..] == p2[1..] + q2;
      LtConcat(p1[1..], q1, p2[1..], q2);
      if p1[0] == p2[0] && p1[1..] == p2[1..] {
        assert p1 == [p1[0]] + p1[1..] && p2 == [p2[0]] + p2[1..];
      }
    }
  }

  /** Three-field version of LtConcat, with the fields' equality spelled out. */
  lemma LtConcat3(a1: string, b1: string, c1: string, a2: string, b2: string, c2: string)
    requires |a1| == |a2| && |b1| == |b2|
    ensures Lt(a1 + b1 + c1, a2 + b2 + c2)
            <==> Lt(a1, a2) || (a1 == a2 && (Lt(b1, b2) || (b1 == b2 && Lt(c1, c2))))
    ensures a1 + b1 + c1 == a2 + b2 + c2 <==> a1 == a2 && b1 == b2 && c1 == c2
  {
    LtConcat(a1, b1 + c1, a2, b2 + c2);
    LtConcat(b1, c1, b2, c2);
    assert a1 + b1 + c1 == a1 + (b1 + c1);
    assert a2 + b2 + c2 == a2 + (b2 + c2);
    if a1 + b1 + c1 == a2 + b2 + c2 {
      var s1, s2 := a1 + b1 + c1, a2 + b2 + c2;
      assert a1 == s1[..|a1|] && a2 == s2[..|a1|];
      assert b1 == s1[|a1|..|a1| + |b1|] && b2 == s2[|a1|..|a1| + |b1|];
      assert c1 == s1[|a1| + |b1|..] && c2 == s2[|a1| + |b1|..];
    }
  }
}
