/** The ordering both commands apply before writing the report: results are
    compared by code string and, for equal codes, by identifier string, with
    Go's byte-wise `<` on strings. `sort.Slice` is not stable, so the model
    promises only what any correct sort delivers: the output is ordered and is
    a permutation of the input. */
module Sorting {
  import opened Text

  /** A sort key: (code, identifier). */
  type Key = (string, string)

  /** The comparator: codes first, identifiers break ties. */
  predicate KeyLess(a: Key, b: Key)
  {
    if a.0 == b.0 then StrLess(a.1, b.1) else StrLess(a.0, b.0)
  }

  lemma KeyLessAsymmetric(a: Key, b: Key)
    ensures !(KeyLess(a, b) && KeyLess(b, a))
  {
    StrLessAsymmetric(a.0, b.0);
    StrLessAsymmetric(a.1, b.1);
  }

  lemma KeyLessTransitive(a: Key, b: Key, c: Key)
    requires KeyLess(a, b) && KeyLess(b, c)
    ensures KeyLess(a, c)
  {
    if a.0 == b.0 && b.0 == c.0 {
      StrLessTransitive(a.1, b.1, c.1);
    } else if a.0 == b.0 {
    } else if b.0 == c.0 {
    } else {
      StrLessTransitive(a.0, b.0, c.0);
      if a.0 == c.0 { StrLessIrreflexive(a.0); }
    }
  }

  /** Two keys are equal or ordered one way round. */
  lemma KeyLessTotal(a: Key, b: Key)
    ensures a == b || KeyLess(a, b) || KeyLess(b, a)
  {
    StrLessTotal(a.0, b.0);
    StrLessTotal(a.1, b.1);
  }

  /** If `a` sorts before `c`, every `b` sorts after `a` or before `c`: the
      "not before" relation the sort relies on is transitive. */
  lemma KeyLessNegativeTransitive(a: Key, b: Key, c: Key)
    requires KeyLess(a, c)
    ensures KeyLess(a, b) || KeyLess(b, c)
  {
    KeyLessTotal(a, b);
    KeyLessTotal(b, c);
    if KeyLess(b, a) && KeyLess(c, b) {
      KeyLessTransitive(c, b, a);
      KeyLessAsymmetric(a, c);
    }
  }

  /** No later element sorts strictly before an earlier one. */
  predicate SortedBy<T>(s: seq<T>, key: T -> Key)
  {
    forall i, j :: 0 <= i < j < |s| ==> !KeyLess(key(s[j]), key(s[i]))
  }

  /** Puts `x` in front of the first element that does not sort before it. */
  function Insert<T>(x: T, s: seq<T>, key: T -> Key): (r: seq<T>)
    requires SortedBy(s, key)
    ensures SortedBy(r, key)
    ensures multiset(r) == multiset(s) + multiset{x}
  {
    if s == [] then [x]
    else if KeyLess(key(s[0]), key(x)) then
      assert s == [s[0]] + s[1..];
      var t := Insert(x, s[1..], key);
      AboveHead(s, x, t, key);
      ConsSorted(s[0], t, key);
      [s[0]] + t
    else
      forall j | 0 <= j < |s| ensures !KeyLess(key(s[j]), key(x)) {
        if KeyLess(key(s[j]), key(x)) {
          KeyLessNegativeTransitive(key(s[j]), key(s[0]), key(x));
        }
      }
      ConsSorted(x, s, key);
      [x] + s
  }

  /** What `Insert` places after the head of a sorted sequence does not sort
      before that head. */
  lemma AboveHead<T>(s: seq<T>, x: T, t: seq<T>, key: T -> Key)
    requires s != [] && SortedBy(s, key) && KeyLess(key(s[0]), key(x))
    requires multiset(t) == multiset(s[1..]) + multiset{x}
    ensures forall j :: 0 <= j < |t| ==> !KeyLess(key(t[j]), key(s[0]))
  {
    forall j | 0 <= j < |t| ensures !KeyLess(key(t[j]), key(s[0])) {
      var y := t[j];
      assert y in multiset(t);
      if y == x {
        KeyLessAsymmetric(key(s[0]), key(x));
      } else {
        assert y in multiset(s[1..]);
        var k :| 0 <= k < |s[1..]| && s[1..][k] == y;
        assert y == s[k + 1];
      }
    }
  }

  /** A head that no element of a sorted tail sorts before keeps it sorted. */
  lemma ConsSorted<T>(h: T, t: seq<T>, key: T -> Key)
    requires SortedBy(t, key)
    requires forall j :: 0 <= j < |t| ==> !KeyLess(key(t[j]), key(h))
    ensures SortedBy([h] + t, key)
  {
    var u := [h] + t;
    forall i, j | 0 <= i < j < |u| ensures !KeyLess(key(u[j]), key(u[i])) {
      assert u[j] == t[j - 1];
      if i > 0 {
        assert u[i] == t[i - 1];
      }
    }
  }

  /** Insertion sort standing for `sort.Slice` with the comparator above. */
  function SortBy<T>(s: seq<T>, key: T -> Key): (r: seq<T>)
    ensures SortedBy(r, key)
    ensures multiset(r) == multiset(s)
  {
    if s == [] then []
    else
      assert s == [s[0]] + s[1..];
      Insert(s[0], SortBy(s[1..], key), key)
  }

  /** Sorting an already ordered sequence leaves it as it is; in particular
      sorting twice is sorting once. */
  lemma {:induction false} SortSortedIsIdentity<T>(s: seq<T>, key: T -> Key)
    requires SortedBy(s, key)
    ensures SortBy(s, key) == s
  {
    if s != [] {
      SortSortedIsIdentity(s[1..], key);
      assert s == [s[0]] + s[1..];
    }
  }
}
