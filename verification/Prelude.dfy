/** Vocabulary shared by the models: results, finite sums, stable sorting. */
module Prelude {

  datatype Option<+T> = None | Some(value: T)

  datatype Result<+T, +E> = Ok(value: T) | Err(error: E)

  /* ---------- sums over finite sets ---------- */

  function Weight<T>(w: map<T, int>, x: T): int {
    if x in w then w[x] else 0
  }

  /** The sum of the weights of the members of `s`; a member without a weight counts zero. */
  ghost function SumOver<T>(s: set<T>, w: map<T, int>): int {
    if s == {} then 0 else var x :| x in s; Weight(w, x) + SumOver(s - {x}, w)
  }

  lemma {:induction false} SumRemove<T>(s: set<T>, w: map<T, int>, x: T)
    requires x in s
    ensures SumOver(s, w) == Weight(w, x) + SumOver(s - {x}, w)
  {
    var y :| y in s && SumOver(s, w) == Weight(w, y) + SumOver(s - {y}, w);
    if y != x {
      SumRemove(s - {y}, w, x);
      SumRemove(s - {x}, w, y);
      assert s - {y} - {x} == s - {x} - {y};
    }
  }

  lemma {:induction false} SumDisjointUnion<T>(a: set<T>, b: set<T>, w: map<T, int>)
    requires a !! b
    ensures SumOver(a + b, w) == SumOver(a, w) + SumOver(b, w)
  {
    if a == {} {
      assert a + b == b;
    } else {
      var x :| x in a;
      SumRemove(a, w, x);
      SumRemove(a + b, w, x);
      assert a + b - {x} == (a - {x}) + b;
      SumDisjointUnion(a - {x}, b, w);
    }
  }

  lemma {:induction false} SumPointwise<T>(s: set<T>, v: map<T, int>, w: map<T, int>)
    requires forall x :: x in s ==> Weight(v, x) <= Weight(w, x)
    ensures SumOver(s, v) <= SumOver(s, w)
  {
    if s != {} {
      var x :| x in s;
      SumRemove(s, v, x);
      SumRemove(s, w, x);
      SumPointwise(s - {x}, v, w);
    }
  }

  lemma {:induction false} SumNonNegative<T>(s: set<T>, w: map<T, int>)
    requires forall x :: x in s ==> 0 <= Weight(w, x)
    ensures 0 <= SumOver(s, w)
  {
    if s != {} {
      var x :| x in s;
      SumRemove(s, w, x);
      SumNonNegative(s - {x}, w);
    }
  }

  /** A larger set with weights no smaller has a sum no smaller. */
  lemma SumMonotone<T>(a: set<T>, v: map<T, int>, b: set<T>, w: map<T, int>)
    requires a <= b
    requires forall x :: x in a ==> Weight(v, x) <= Weight(w, x)
    requires forall x :: x in b ==> 0 <= Weight(w, x)
    ensures SumOver(a, v) <= SumOver(b, w)
  {
    SumPointwise(a, v, w);
    SumNonNegative(b - a, w);
    SumDisjointUnion(a, b - a, w);
    assert a + (b - a) == b;
  }

  lemma SumSame<T>(a: set<T>, v: map<T, int>, w: map<T, int>)
    requires forall x :: x in a ==> Weight(v, x) == Weight(w, x)
    ensures SumOver(a, v) == SumOver(a, w)
  {
    SumPointwise(a, v, w);
    SumPointwise(a, w, v);
  }

  /* ---------- stable sorting ---------- */

  predicate SortedBy<T(==)>(s: seq<T>, key: T -> int) {
    s == [] || ((forall y :: y in s[1..] ==> key(s[0]) <= key(y)) && SortedBy(s[1..], key))
  }

  function InsertByKey<T>(x: T, s: seq<T>, key: T -> int): (r: seq<T>)
    ensures multiset(r) == multiset{x} + multiset(s)
  {
    if s == [] then [x]
    else if key(x) <= key(s[0]) then [x] + s
    else
      assert s == [s[0]] + s[1..];
      [s[0]] + InsertByKey(x, s[1..], key)
  }

  lemma {:induction false} InsertSorted<T>(x: T, s: seq<T>, key: T -> int)
    requires SortedBy(s, key)
    ensures SortedBy(InsertByKey(x, s, key), key)
  {
    if s == [] {
    } else if key(x) <= key(s[0]) {
      assert ([x] + s)[1..] == s;
    } else {
      var r := InsertByKey(x, s[1..], key);
      InsertSorted(x, s[1..], key);
      assert ([s[0]] + r)[1..] == r;
      forall y | y in r ensures key(s[0]) <= key(y) {
        assert y in multiset(r);
        assert y == x || y in multiset(s[1..]);
      }
    }
  }

  /** The stable ascending sort by `key`: equal keys keep their order. */
  function SortByKey<T>(s: seq<T>, key: T -> int): (r: seq<T>)
    ensures multiset(r) == multiset(s)
    ensures SortedBy(r, key)
  {
    if s == [] then []
    else
      assert s == [s[0]] + s[1..];
      var rest := SortByKey(s[1..], key);
      InsertSorted(s[0], rest, key);
      InsertByKey(s[0], rest, key)
  }

  lemma PermutationMembers<T>(a: seq<T>, b: seq<T>)
    requires multiset(a) == multiset(b)
    ensures forall x :: x in a <==> x in b
  {
    assert forall x :: x in a <==> x in multiset(a);
    assert forall x :: x in b <==> x in multiset(b);
  }
}
