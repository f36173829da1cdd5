/**
 * Python list operations that the store and the business rules use on
 * `users` and `documents` lists: membership, duplicate-freedom and
 * `list.remove(x)`.
 */
module Lists {

  /** No element occurs twice. */
  predicate NoDup<T(==)>(s: seq<T>) {
    forall i, j | 0 <= i < j < |s| :: s[i] != s[j]
  }

  /** `list.index(x)`: the position of the first occurrence of `x`. */
  function IndexOf<T(==)>(s: seq<T>, x: T): (i: nat)
    requires x in s
    ensures i < |s| && s[i] == x && x !in s[..i]
  {
    if s[0] == x then 0
    else
      assert x in s[1..] by { assert s == [s[0]] + s[1..]; }
      var j := IndexOf(s[1..], x);
      assert s[..j + 1] == [s[0]] + s[1..][..j];
      j + 1
  }

  /**
   * Python's `list.remove(x)`: drops the first occurrence of `x` and keeps
   * the order of the rest (`RemoveFirstAt`). Python raises when `x` is
   * absent; every call site checks `x in list` first.
   */
  function RemoveFirst<T(==)>(s: seq<T>, x: T): (r: seq<T>)
    requires x in s
    ensures |r| == |s| - 1
    ensures multiset(r) == multiset(s) - multiset{x}
  {
    assert s == [s[0]] + s[1..];
    if s[0] == x then s[1..]
    else [s[0]] + RemoveFirst(s[1..], x)
  }

  /** Elements other than `x` keep their membership. */
  lemma RemoveFirstKeepsOthers<T>(s: seq<T>, x: T, y: T)
    requires x in s && y != x
    ensures y in RemoveFirst(s, x) <==> y in s
  {
    var r := RemoveFirst(s, x);
    assert y in r <==> y in multiset(r);
    assert y in s <==> y in multiset(s);
  }

  /**
   * `remove` cuts exactly the first occurrence out: the elements before it
   * keep their positions and the later ones move one place down, in order.
   */
  lemma {:induction false} RemoveFirstAt<T>(s: seq<T>, x: T)
    requires x in s
    ensures forall k | 0 <= k < IndexOf(s, x) :: RemoveFirst(s, x)[k] == s[k]
    ensures forall k | IndexOf(s, x) <= k < |s| - 1 :: RemoveFirst(s, x)[k] == s[k + 1]
  {
    if s[0] != x {
      var t := s[1..];
      assert x in t by { assert s == [s[0]] + t; }
      RemoveFirstAt(t, x);
      var j := IndexOf(t, x);
      var r, rt := RemoveFirst(s, x), RemoveFirst(t, x);
      assert IndexOf(s, x) == j + 1;
      assert r == [s[0]] + rt;
      forall k | 0 <= k < j + 1
        ensures r[k] == s[k]
      {
        if k > 0 { assert r[k] == rt[k - 1] == t[k - 1]; }
      }
      forall k | j + 1 <= k < |s| - 1
        ensures r[k] == s[k + 1]
      {
        assert r[k] == rt[k - 1] == t[k];
      }
    }
  }

  /** On a duplicate-free list, `remove` takes `x` out entirely and keeps the list duplicate-free. */
  lemma RemoveFirstNoDup<T>(s: seq<T>, x: T)
    requires NoDup(s) && x in s
    ensures x !in RemoveFirst(s, x)
    ensures NoDup(RemoveFirst(s, x))
  {
    var i := IndexOf(s, x);
    var r := RemoveFirst(s, x);
    RemoveFirstAt(s, x);
    forall a, b | 0 <= a < b < |r|
      ensures r[a] != r[b]
    {
      var a', b' := if a < i then a else a + 1, if b < i then b else b + 1;
      assert r[a] == s[a'] && r[b] == s[b'];
    }
    forall k | 0 <= k < |r|
      ensures r[k] != x
    {
      var k' := if k < i then k else k + 1;
      assert r[k] == s[k'];
    }
  }

  /** On a duplicate-free list, a member occurs exactly once. */
  lemma {:induction false} NoDupOnce<T>(s: seq<T>, x: T)
    requires NoDup(s) && x in s
    ensures multiset(s)[x] == 1
  {
    assert s == [s[0]] + s[1..];
    var t := s[1..];
    assert forall k | 0 <= k < |t| :: t[k] == s[k + 1];
    assert NoDup(t);
    if s[0] == x {
      assert x !in t;
      assert multiset(t)[x] == 0;
    } else {
      NoDupOnce(t, x);
    }
  }

  /** Appending an absent element keeps the list duplicate-free. */
  lemma AppendNoDup<T>(s: seq<T>, x: T)
    requires NoDup(s) && x !in s
    ensures NoDup(s + [x])
  {
    var t := s + [x];
    forall i, j | 0 <= i < j < |t| ensures t[i] != t[j] {
      if j == |s| { assert t[i] == s[i]; }
    }
  }
}
