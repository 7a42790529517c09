/** The stable comparison sort behind every `sort_by` of the compose engine.  Its result is pinned down by
    three facts, proved below: it is a permutation, it is in order, and equivalent elements keep their order. */
module StableSort {

  function Insert<T>(le: (T, T) -> bool, x: T, s: seq<T>): seq<T> {
    if s == [] || le(x, s[0]) then [x] + s else [s[0]] + Insert(le, x, s[1..])
  }

  function Sort<T>(le: (T, T) -> bool, s: seq<T>): seq<T> {
    if s == [] then [] else Insert(le, s[0], Sort(le, s[1..]))
  }

  ghost predicate TotalPreorder<T(!new)>(le: (T, T) -> bool) {
    && (forall a, b :: le(a, b) || le(b, a))
    && (forall a, b, c :: le(a, b) && le(b, c) ==> le(a, c))
  }

  ghost predicate Sorted<T>(le: (T, T) -> bool, s: seq<T>) {
    forall i, j :: 0 <= i < j < |s| ==> le(s[i], s[j])
  }

  /** The elements of `s` that the order does not separate from `x`, in the order they occur. */
  ghost function Equivalent<T>(le: (T, T) -> bool, x: T, s: seq<T>): seq<T> {
    if s == [] then []
    else (if le(x, s[0]) && le(s[0], x) then [s[0]] else []) + Equivalent(le, x, s[1..])
  }

  lemma {:induction false} EquivalentConcat<T>(le: (T, T) -> bool, x: T, a: seq<T>, b: seq<T>)
    ensures Equivalent(le, x, a + b) == Equivalent(le, x, a) + Equivalent(le, x, b)
  {
    if a == [] {
      assert a + b == b;
    } else {
      EquivalentConcat(le, x, a[1..], b);
      var head := if le(x, a[0]) && le(a[0], x) then [a[0]] else [];
      assert (a + b)[1..] == a[1..] + b && (a + b)[0] == a[0];
      assert Equivalent(le, x, a + b) == head + (Equivalent(le, x, a[1..]) + Equivalent(le, x, b));
    }
  }

  lemma EquivalentLast<T>(le: (T, T) -> bool, x: T, s: seq<T>, y: T)
    ensures Equivalent(le, x, s + [y]) == Equivalent(le, x, s) + if le(x, y) && le(y, x) then [y] else []
  {
    EquivalentConcat(le, x, s, [y]);
  }

  lemma {:induction false} InsertPermutes<T>(le: (T, T) -> bool, x: T, s: seq<T>)
    ensures multiset(Insert(le, x, s)) == multiset{x} + multiset(s)
  {
    if s != [] && !le(x, s[0]) {
      InsertPermutes(le, x, s[1..]);
      assert s == [s[0]] + s[1..];
    }
  }

  lemma {:induction false} SortPermutes<T>(le: (T, T) -> bool, s: seq<T>)
    ensures multiset(Sort(le, s)) == multiset(s)
  {
    if s != [] {
      SortPermutes(le, s[1..]);
      InsertPermutes(le, s[0], Sort(le, s[1..]));
      assert s == [s[0]] + s[1..];
    }
  }

  lemma {:induction false} InsertSorts<T(!new)>(le: (T, T) -> bool, x: T, s: seq<T>)
    requires TotalPreorder(le) && Sorted(le, s)
    ensures Sorted(le, Insert(le, x, s))
  {
    if s != [] && !le(x, s[0]) {
      InsertSorts(le, x, s[1..]);
      var r := Insert(le, x, s[1..]);
      forall y | y in r ensures le(s[0], y) {
        InsertPermutes(le, x, s[1..]);
        assert y in multiset(r);
        assert y == x || y in s[1..];
      }
    }
  }

  lemma {:induction false} SortSorts<T(!new)>(le: (T, T) -> bool, s: seq<T>)
    requires TotalPreorder(le)
    ensures Sorted(le, Sort(le, s))
  {
    if s != [] {
      SortSorts(le, s[1..]);
      InsertSorts(le, s[0], Sort(le, s[1..]));
    }
  }

  lemma {:induction false} InsertKeepsOrder<T(!new)>(le: (T, T) -> bool, x: T, s: seq<T>, z: T)
    requires TotalPreorder(le)
    ensures Equivalent(le, z, Insert(le, x, s)) == Equivalent(le, z, [x] + s)
  {
    if s != [] && !le(x, s[0]) {
      InsertKeepsOrder(le, x, s[1..], z);
      assert ([s[0]] + Insert(le, x, s[1..]))[1..] == Insert(le, x, s[1..]);
      assert ([x] + s)[1..] == s;
      assert ([x] + s[1..])[1..] == s[1..];
    }
  }

  lemma {:induction false} SortIsStable<T(!new)>(le: (T, T) -> bool, s: seq<T>, z: T)
    requires TotalPreorder(le)
    ensures Equivalent(le, z, Sort(le, s)) == Equivalent(le, z, s)
  {
    if s != [] {
      SortIsStable(le, s[1..], z);
      InsertKeepsOrder(le, s[0], Sort(le, s[1..]), z);
      assert ([s[0]] + Sort(le, s[1..]))[1..] == Sort(le, s[1..]);
    }
  }

  lemma {:induction false} SortedIsFixed<T>(le: (T, T) -> bool, s: seq<T>)
    requires Sorted(le, s)
    ensures Sort(le, s) == s
  {
    if s != [] {
      SortedIsFixed(le, s[1..]);
    }
  }

  lemma LengthKept<T>(le: (T, T) -> bool, s: seq<T>)
    ensures |Sort(le, s)| == |s|
  {
    SortPermutes(le, s);
    assert |multiset(Sort(le, s))| == |multiset(s)|;
  }
}
