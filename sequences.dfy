/** Facts about sequences used as the recency list of the cache. */
module Sequences {

  /** No element occurs twice in `s`. */
  ghost predicate NoDup<T>(s: seq<T>) {
    forall i, j :: 0 <= i < j < |s| ==> s[i] != s[j]
  }

  /** The set of elements of `s`. */
  ghost function Elements<T>(s: seq<T>): set<T> {
    set x | x in s
  }

  /** A sequence without duplicates has as many distinct elements as it is long. */
  lemma {:induction false} DistinctCard<T>(s: seq<T>)
    requires NoDup(s)
    ensures |Elements(s)| == |s|
  {
    if s != [] {
      assert NoDup(s[1..]) by {
        forall i, j | 0 <= i < j < |s| - 1 ensures s[1..][i] != s[1..][j] {
          assert s[1..][i] == s[i + 1] && s[1..][j] == s[j + 1];
        }
      }
      DistinctCard(s[1..]);
      assert Elements(s) == {s[0]} + Elements(s[1..]);
      forall j | 0 <= j < |s| - 1 ensures s[1..][j] != s[0] {
        assert s[1..][j] == s[j + 1];
      }
    }
  }

  /**
   * Position of the first occurrence of `x` in `s`: the abstract
   * counterpart of a list iterator pointing at `x`.
   */
  function IndexOf<T(==)>(s: seq<T>, x: T): (i: nat)
    requires x in s
    ensures i < |s| && s[i] == x
    ensures forall k :: 0 <= k < i ==> s[k] != x
  {
    if s[0] == x then 0 else 1 + IndexOf(s[1..], x)
  }

  /** In a sequence without duplicates every element sits at its IndexOf. */
  lemma IndexOfUnique<T>(s: seq<T>, j: nat)
    requires NoDup(s) && j < |s|
    ensures IndexOf(s, s[j]) == j
  {
  }

  /** IndexOf is the first position holding `x`. */
  lemma IndexOfFirst<T>(s: seq<T>, x: T, i: nat)
    requires i < |s| && s[i] == x
    requires forall k :: 0 <= k < i ==> s[k] != x
    ensures IndexOf(s, x) == i
  {
  }

  /** Pushing another element at the front moves `x` back by one. */
  lemma IndexOfCons<T>(y: T, s: seq<T>, x: T)
    requires x in s && y != x
    ensures IndexOf([y] + s, x) == IndexOf(s, x) + 1
  {
    var i := IndexOf(s, x);
    IndexOfFirst([y] + s, x, i + 1);
  }

  /** Cutting the sequence after `x` leaves `x` where it was. */
  lemma IndexOfPrefix<T>(s: seq<T>, n: nat, x: T)
    requires x in s && IndexOf(s, x) < n <= |s|
    ensures x in s[..n] && IndexOf(s[..n], x) == IndexOf(s, x)
  {
    var i := IndexOf(s, x);
    assert s[..n][i] == x;
    IndexOfFirst(s[..n], x, i);
  }

  /** `s` with every occurrence of `x` dropped, the others kept in order. */
  function Without<T(==)>(s: seq<T>, x: T): (r: seq<T>)
    ensures x !in r
  {
    if s == [] then []
    else if s[0] == x then Without(s[1..], x)
    else [s[0]] + Without(s[1..], x)
  }

  lemma {:induction false} WithoutConcat<T>(a: seq<T>, b: seq<T>, x: T)
    ensures Without(a + b, x) == Without(a, x) + Without(b, x)
  {
    if a != [] {
      assert (a + b)[0] == a[0] && (a + b)[1..] == a[1..] + b;
      WithoutConcat(a[1..], b, x);
    } else {
      assert a + b == b;
    }
  }

  /** Removing the element at position `i` keeps the others distinct. */
  lemma NoDupErase<T>(s: seq<T>, i: nat)
    requires NoDup(s) && i < |s|
    ensures NoDup(s[..i] + s[i + 1..])
  {
    var e := s[..i] + s[i + 1..];
    forall a, b | 0 <= a < b < |e| ensures e[a] != e[b] {
      var a' := if a < i then a else a + 1;
      var b' := if b < i then b else b + 1;
      assert e[a] == s[a'] && e[b] == s[b'];
    }
  }

  /** Moving `x` from between `a` and `b` to the front keeps the order of the rest. */
  lemma {:induction false} RelinkKeepsOrder<T>(a: seq<T>, x: T, b: seq<T>)
    ensures Without([x] + (a + b), x) == Without(a + [x] + b, x)
  {
    assert Without([x], x) == [] by {
      assert [x][1..] == [];
    }
    var wa, wb := Without(a, x), Without(b, x);
    calc {
      Without([x] + (a + b), x);
    == { WithoutConcat([x], a + b, x); }
      Without([x], x) + Without(a + b, x);
    == { WithoutConcat(a, b, x); }
      wa + wb;
    == { WithoutConcat(a, [x], x); }
      Without(a + [x], x) + Without(b, x);
    == { WithoutConcat(a + [x], b, x); }
      Without(a + [x] + b, x);
    }
  }

  /** Relinking position `i` at the front keeps the elements distinct. */
  lemma RelinkKeepsNoDup<T>(s: seq<T>, i: nat)
    requires i < |s|
    ensures NoDup(s) ==> NoDup([s[i]] + (s[..i] + s[i + 1..]))
  {
    var x, rest := s[i], s[..i] + s[i + 1..];
    if NoDup(s) {
    NoDupErase(s, i);
    forall k | 0 <= k < |rest| ensures rest[k] != x {
      assert rest[k] == if k < i then s[k] else s[k + 1];
    }
    forall a, b | 0 <= a < b < |rest| + 1 ensures ([x] + rest)[a] != ([x] + rest)[b] {
      assert ([x] + rest)[b] == rest[b - 1];
      if a > 0 {
        assert ([x] + rest)[a] == rest[a - 1];
      }
    }
    }
  }

  /**
   * The list surgery of a cache hit: unlink `x` from where it stands and
   * put it at the front. Length, contents and the relative order of all
   * other elements are kept.
   */
  function MoveToFront<T(==)>(s: seq<T>, x: T): (r: seq<T>)
    requires x in s
    ensures |r| == |s| && r[0] == x
    ensures multiset(r) == multiset(s)
    ensures Without(r, x) == Without(s, x)
    ensures NoDup(s) ==> NoDup(r)
  {
    var i := IndexOf(s, x);
    var before, after := s[..i], s[i + 1..];
    assert s == before + [x] + after;
    assert multiset(s) == multiset(before) + multiset{x} + multiset(after);
    RelinkKeepsOrder(before, x, after);
    RelinkKeepsNoDup(s, i);
    [x] + (before + after)
  }
}
