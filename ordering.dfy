/** `ORDER BY` on one column: the sort keys a column can hold, their order,
    the direction, and an insertion sort that puts rows in that order. */
module Ordering {
  import opened Common

  /** The value of the sort column: an integer column, or a nullable text
      column. */
  datatype Key = Num(n: int) | Text(t: Option<string>)

  /** Binary collation: code point by code point, a proper prefix first. */
  predicate LexLe(a: string, b: string) {
    a == [] || (b != [] && (a[0] < b[0] || (a[0] == b[0] && LexLe(a[1..], b[1..]))))
  }

  /** Ascending order of keys; NULL sorts before every text. Numbers and texts
      never meet in one column; they are ordered only to make the order total. */
  predicate KeyLe(a: Key, b: Key) {
    match (a, b)
    case (Num(x), Num(y)) => x <= y
    case (Num(_), Text(_)) => true
    case (Text(_), Num(_)) => false
    case (Text(None), Text(_)) => true
    case (Text(Some(_)), Text(None)) => false
    case (Text(Some(x)), Text(Some(y))) => LexLe(x, y)
  }

  /** `a` may come before `b` under `ASC` (desc false) or `DESC` (desc true). */
  predicate Before(a: Key, b: Key, desc: bool) {
    if desc then KeyLe(b, a) else KeyLe(a, b)
  }

  lemma {:induction false} LexLeTotal(a: string, b: string)
    ensures LexLe(a, b) || LexLe(b, a)
  {
    if a != [] && b != [] && a[0] == b[0] {
      LexLeTotal(a[1..], b[1..]);
    }
  }

  lemma {:induction false} LexLeTransitive(a: string, b: string, c: string)
    requires LexLe(a, b) && LexLe(b, c)
    ensures LexLe(a, c)
  {
    if a != [] && a[0] == b[0] && b[0] == c[0] {
      LexLeTransitive(a[1..], b[1..], c[1..]);
    }
  }

  lemma BeforeTotal(a: Key, b: Key, desc: bool)
    ensures Before(a, b, desc) || Before(b, a, desc)
  {
    if a.Text? && b.Text? && a.t.Some? && b.t.Some? {
      LexLeTotal(a.t.value, b.t.value);
    }
  }

  lemma BeforeTransitive(a: Key, b: Key, c: Key, desc: bool)
    requires Before(a, b, desc) && Before(b, c, desc)
    ensures Before(a, c, desc)
  {
    if a.Text? && b.Text? && c.Text? && a.t.Some? && b.t.Some? && c.t.Some? {
      if desc {
        LexLeTransitive(c.t.value, b.t.value, a.t.value);
      } else {
        LexLeTransitive(a.t.value, b.t.value, c.t.value);
      }
    }
  }

  /** Every earlier row may come before every later one. */
  ghost predicate Sorted<T>(s: seq<T>, key: T -> Key, desc: bool) {
    forall i, j :: 0 <= i < j < |s| ==> Before(key(s[i]), key(s[j]), desc)
  }

  /** Extending a sorted sequence at the front with a row that may come before
      all of it keeps it sorted. */
  lemma PrependSorted<T>(x: T, s: seq<T>, key: T -> Key, desc: bool)
    requires Sorted(s, key, desc)
    requires forall y :: y in s ==> Before(key(x), key(y), desc)
    ensures Sorted([x] + s, key, desc)
  {
    var r := [x] + s;
    forall i, j | 0 <= i < j < |r|
      ensures Before(key(r[i]), key(r[j]), desc)
    {
      if i > 0 {
        assert r[i] == s[i - 1] && r[j] == s[j - 1];
      } else {
        assert r[j] == s[j - 1];
      }
    }
  }

  /** In a sorted sequence, whatever may come before the head may come before
      every element. */
  lemma BeforeHeadBeforeAll<T>(x: T, s: seq<T>, key: T -> Key, desc: bool)
    requires Sorted(s, key, desc) && s != []
    requires Before(key(x), key(s[0]), desc)
    ensures forall y :: y in s ==> Before(key(x), key(y), desc)
  {
    forall y | y in s
      ensures Before(key(x), key(y), desc)
    {
      var j :| 0 <= j < |s| && s[j] == y;
      if j > 0 {
        BeforeTransitive(key(x), key(s[0]), key(y), desc);
      }
    }
  }

  /** Puts `x` into a sorted sequence at its place. */
  function Insert<T>(x: T, s: seq<T>, key: T -> Key, desc: bool): (r: seq<T>)
    requires Sorted(s, key, desc)
    ensures multiset(r) == multiset(s) + multiset{x}
    ensures Sorted(r, key, desc)
  {
    if s == [] then [x]
    else if Before(key(x), key(s[0]), desc) then
      BeforeHeadBeforeAll(x, s, key, desc);
      PrependSorted(x, s, key, desc);
      [x] + s
    else
      var rest := Insert(x, s[1..], key, desc);
      BeforeTotal(key(x), key(s[0]), desc);
      assert s == [s[0]] + s[1..];
      assert forall y :: y in rest ==> Before(key(s[0]), key(y), desc) by {
        forall y | y in rest
          ensures Before(key(s[0]), key(y), desc)
        {
          assert y in multiset(rest);
          if y != x {
            assert y in multiset(s[1..]);
          }
        }
      }
      PrependSorted(s[0], rest, key, desc);
      [s[0]] + rest
  }

  /** The rows in the order the key and direction ask for: sorted, and a
      permutation of the input. The order among equal keys is whatever the
      insertion gives; nothing is promised about it. */
  function SortBy<T>(s: seq<T>, key: T -> Key, desc: bool): (r: seq<T>)
    ensures multiset(r) == multiset(s)
    ensures Sorted(r, key, desc)
  {
    if s == [] then []
    else
      assert s == [s[0]] + s[1..];
      Insert(s[0], SortBy(s[1..], key, desc), key, desc)
  }
}
