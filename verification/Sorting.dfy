/** `Vec<String>::sort`: strings in code point order, and the uniqueness of the sorted arrangement. */
module Sorting {

  predicate Leq(a: string, b: string) {
    a == [] || (b != [] && (a[0] < b[0] || (a[0] == b[0] && Leq(a[1..], b[1..]))))
  }

  lemma {:induction false} LeqTotal(a: string, b: string)
    ensures Leq(a, b) || Leq(b, a)
  {
    if a != [] && b != [] { LeqTotal(a[1..], b[1..]); }
  }

  lemma {:induction false} LeqAntisymmetric(a: string, b: string)
    requires Leq(a, b) && Leq(b, a)
    ensures a == b
  {
    if a != [] {
      LeqAntisymmetric(a[1..], b[1..]);
      assert a == [a[0]] + a[1..] && b == [b[0]] + b[1..];
    }
  }

  lemma {:induction false} LeqTransitive(a: string, b: string, c: string)
    requires Leq(a, b) && Leq(b, c)
    ensures Leq(a, c)
  {
    if a != [] && a[0] == b[0] && b[0] == c[0] { LeqTransitive(a[1..], b[1..], c[1..]); }
  }

  predicate IsSorted(s: seq<string>) { forall i, j | 0 <= i < j < |s| :: Leq(s[i], s[j]) }

  function Insert(x: string, s: seq<string>): (r: seq<string>)
    requires IsSorted(s)
    ensures multiset(r) == multiset(s) + multiset{x}
    ensures IsSorted(r)
  {
    hide Leq;
    if s == [] then [x]
    else if Leq(x, s[0]) then
      InsertFront(x, s);
      [x] + s
    else
      LeqTotal(x, s[0]);
      assert s == [s[0]] + s[1..];
      var t := Insert(x, s[1..]);
      InsertBack(s[0], t, x, s[1..]);
      [s[0]] + t
  }

  lemma InsertFront(x: string, s: seq<string>)
    requires IsSorted(s) && s != [] && Leq(x, s[0])
    ensures IsSorted([x] + s)
  {
    hide Leq;
    var r := [x] + s;
    forall i, j | 0 <= i < j < |r| ensures Leq(r[i], r[j]) {
      if i == 0 && j > 1 { LeqTransitive(x, s[0], s[j - 1]); }
    }
  }

  lemma InsertBack(y: string, t: seq<string>, x: string, s: seq<string>)
    requires IsSorted(t) && multiset(t) == multiset(s) + multiset{x} && Leq(y, x) && forall z | z in s :: Leq(y, z)
    ensures IsSorted([y] + t)
  {
    hide Leq;
    var r := [y] + t;
    forall i, j | 0 <= i < j < |r| ensures Leq(r[i], r[j]) {
      if i == 0 {
        assert t[j - 1] in multiset(t);
        assert t[j - 1] == x || t[j - 1] in multiset(s);
      }
    }
  }

  /** The sorted arrangement of some strings. */
  function Sort(s: seq<string>): (r: seq<string>)
    ensures multiset(r) == multiset(s)
    ensures IsSorted(r)
  {
    hide Leq, Insert;
    if s == [] then []
    else
      assert s == s[..|s| - 1] + [s[|s| - 1]];
      Insert(s[|s| - 1], Sort(s[..|s| - 1]))
  }

  lemma SameMembers(a: seq<string>, b: seq<string>, x: string)
    requires multiset(a) == multiset(b)
    ensures x in a <==> x in b
  {
    assert x in a <==> x in multiset(a);
    assert x in b <==> x in multiset(b);
  }

  /** The least element comes first in every sorted arrangement. */
  lemma SameHead(a: seq<string>, b: seq<string>)
    requires IsSorted(a) && IsSorted(b) && a != [] && b != [] && multiset(a) == multiset(b)
    ensures a[0] == b[0]
  {
    hide Leq;
    SameMembers(a, b, a[0]);
    SameMembers(a, b, b[0]);
    var i :| 0 <= i < |a| && a[i] == b[0];
    var j :| 0 <= j < |b| && b[j] == a[0];
    if i > 0 && j > 0 { LeqAntisymmetric(a[0], b[0]); }
  }

  lemma TailMultiset(a: seq<string>)
    requires a != []
    ensures multiset(a[1..]) == multiset(a) - multiset{a[0]}
  {
    assert a == [a[0]] + a[1..];
  }

  lemma {:induction false} SortedUnique(a: seq<string>, b: seq<string>)
    requires IsSorted(a) && IsSorted(b) && multiset(a) == multiset(b)
    ensures a == b
  {
    hide Leq;
    assert |multiset(a)| == |a| && |multiset(b)| == |b|;
    if a != [] {
      SameHead(a, b);
      TailMultiset(a);
      TailMultiset(b);
      SortedUnique(a[1..], b[1..]);
      assert a == [a[0]] + a[1..] && b == [b[0]] + b[1..];
    }
  }

  /** Sorting forgets the order it starts from. */
  lemma SortOfPermutation(a: seq<string>, b: seq<string>)
    requires multiset(a) == multiset(b)
    ensures Sort(a) == Sort(b)
  {
    hide Sort;
    SortedUnique(Sort(a), Sort(b));
  }
}
