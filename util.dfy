/** Small helpers shared by the model: an optional value, a result with an
    error, and facts about sequences used throughout. */
module Util {

  datatype Option<+T> = None | Some(value: T)

  datatype Result<+T, +E> = Success(value: T) | Failure(error: E)

  function Min(a: int, b: int): int { if a <= b then a else b }

  /** The set of elements of a sequence. */
  function Elems<T>(s: seq<T>): set<T> { set x | x in s }

  /** No element occurs twice. */
  predicate NoDup<T(==)>(s: seq<T>) {
    forall i, j :: 0 <= i < j < |s| ==> s[i] != s[j]
  }

  lemma ElemsAppend<T>(a: seq<T>, b: seq<T>)
    ensures Elems(a + b) == Elems(a) + Elems(b)
  {
    forall x | x in a + b ensures x in a || x in b {
      var k :| 0 <= k < |a + b| && (a + b)[k] == x;
      if k >= |a| { assert b[k - |a|] == x; }
    }
  }

  /** A duplicate-free sequence extended by a fresh element stays duplicate-free,
      and one extended by an element it already holds does not. */
  lemma NoDupSnoc<T>(s: seq<T>, x: T)
    requires NoDup(s)
    ensures NoDup(s + [x]) <==> x !in s
  {
    if x in s {
      var k :| 0 <= k < |s| && s[k] == x;
      assert (s + [x])[k] == (s + [x])[|s|];
    }
  }

  /** Prefixes of a duplicate-free sequence are duplicate-free. */
  lemma NoDupPrefix<T>(a: seq<T>, b: seq<T>)
    requires a <= b
    ensures NoDup(b) ==> NoDup(a)
  {
    if NoDup(b) {
      forall i, j | 0 <= i < j < |a| ensures a[i] != a[j] {
        assert a[i] == b[i] && a[j] == b[j];
      }
    }
  }

  lemma PrefixConcat<T>(x: seq<T>, a: seq<T>, b: seq<T>)
    requires a <= b
    ensures x + a <= x + b
  {
    assert (x + b)[..|x + a|] == x + b[..|a|];
  }

  /** A concatenation is duplicate-free exactly when both parts are and they
      share no element. */
  lemma NoDupConcat<T>(a: seq<T>, b: seq<T>)
    ensures NoDup(a + b) <==> NoDup(a) && NoDup(b) && Elems(a) * Elems(b) == {}
  {
    var ab := a + b;
    if NoDup(ab) {
      assert ab[..|a|] == a;
      NoDupPrefix(a, ab);
      forall i, j | 0 <= i < j < |b| ensures b[i] != b[j] {
        assert ab[|a| + i] == b[i] && ab[|a| + j] == b[j];
      }
      forall x | x in Elems(a) ensures x !in Elems(b) {
        var i :| 0 <= i < |a| && a[i] == x;
        forall j | 0 <= j < |b| ensures b[j] != x {
          assert ab[i] == x && ab[|a| + j] == b[j];
        }
      }
    }
    if NoDup(a) && NoDup(b) && Elems(a) * Elems(b) == {} {
      forall i, j | 0 <= i < j < |ab| ensures ab[i] != ab[j] {
        if i < |a| && j >= |a| {
          var x := ab[i];
          assert x == a[i] && x in Elems(a);
          assert x !in Elems(a) * Elems(b);
          assert ab[j] == b[j - |a|] && ab[j] in Elems(b);
        } else if j < |a| {
          assert ab[i] == a[i] && ab[j] == a[j];
        } else {
          assert ab[i] == b[i - |a|] && ab[j] == b[j - |a|];
        }
      }
    }
  }

  /** Duplicate-freedom depends only on the multiset of elements: no element
      occurs more than once. */
  lemma {:induction false} NoDupCount<T>(s: seq<T>)
    ensures NoDup(s) <==> forall x :: multiset(s)[x] <= 1
    decreases |s|
  {
    if |s| > 0 {
      var init, last := s[..|s| - 1], s[|s| - 1];
      assert s == init + [last];
      NoDupCount(init);
      NoDupConcat(init, [last]);
      assert multiset(s) == multiset(init) + multiset{last};
      if forall x :: multiset(s)[x] <= 1 {
        assert multiset(s)[last] == multiset(init)[last] + 1;
        assert multiset(s)[last] <= 1;
        forall x ensures multiset(init)[x] <= 1 {
          assert multiset(s)[x] <= 1;
        }
      }
    }
  }
}
