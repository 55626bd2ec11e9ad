/** The one list operation of java.util.List whose behaviour the lecture
    service depends on beyond appending: removal of an element by equality. */
module Lists {

  /** The first position at which `x` occurs in `s`, or `|s|` when it does not occur. */
  function IndexOf<T(==)>(s: seq<T>, x: T): (i: nat)
    ensures i <= |s|
    ensures i < |s| <==> x in s
    ensures i < |s| ==> s[i] == x
    ensures x !in s[..i]
  {
    if s == [] then 0
    else if s[0] == x then 0
    else
      assert s[1..][..IndexOf(s[1..], x)] == s[1..1 + IndexOf(s[1..], x)];
      assert s[..1 + IndexOf(s[1..], x)] == [s[0]] + s[1..1 + IndexOf(s[1..], x)];
      1 + IndexOf(s[1..], x)
  }

  /** `List.remove(Object)`: drops the first element equal to `x`, if any. */
  function RemoveFirst<T(==)>(s: seq<T>, x: T): (r: seq<T>)
    ensures x !in s ==> r == s
    ensures x in s ==> |r| == |s| - 1
  {
    if s == [] then []
    else if s[0] == x then s[1..]
    else [s[0]] + RemoveFirst(s[1..], x)
  }

  /** What is removed is exactly the first occurrence of `x`; the other
      elements keep their order. */
  lemma {:induction false} RemoveFirstAt<T>(s: seq<T>, x: T)
    requires x in s
    ensures RemoveFirst(s, x) == s[..IndexOf(s, x)] + s[IndexOf(s, x) + 1..]
  {
    if s[0] != x {
      var tail := s[1..];
      var j := IndexOf(tail, x);
      RemoveFirstAt(tail, x);
      assert IndexOf(s, x) == j + 1;
      SlicesAfterHead(s, j);
      assert RemoveFirst(s, x) == [s[0]] + RemoveFirst(tail, x);
    }
  }

  /** Cutting `s` around position `j + 1` is cutting its tail around `j`. */
  lemma SlicesAfterHead<T>(s: seq<T>, j: nat)
    requires j + 1 < |s|
    ensures s[..j + 1] + s[j + 2..] == [s[0]] + (s[1..][..j] + s[1..][j + 1..])
  {
    assert s[..j + 1] == [s[0]] + s[1..][..j];
    assert s[j + 2..] == s[1..][j + 1..];
  }

  /** Removal only ever drops elements: what is left was there before. */
  lemma RemoveFirstKeeps<T>(s: seq<T>, x: T)
    ensures forall y :: y in RemoveFirst(s, x) ==> y in s
  {
    if x in s {
      var i := IndexOf(s, x);
      RemoveFirstAt(s, x);
      forall y | y in RemoveFirst(s, x) ensures y in s {
        assert y in s[..i] || y in s[i + 1..];
      }
    }
  }

  /** No element occurs twice. */
  predicate Distinct<T(==)>(s: seq<T>)
  {
    forall i, j :: 0 <= i < j < |s| ==> s[i] != s[j]
  }

  /** Dropping one position of a list without repetitions drops every
      occurrence of that element and creates no repetition. */
  lemma DropAtDistinct<T>(s: seq<T>, i: nat)
    requires Distinct(s) && i < |s|
    ensures Distinct(s[..i] + s[i + 1..])
    ensures s[i] !in s[..i] + s[i + 1..]
  {
    var r := s[..i] + s[i + 1..];
    assert forall k :: 0 <= k < |r| ==> r[k] == if k < i then s[k] else s[k + 1];
  }

  /** In a list without repetitions, removal leaves no occurrence of `x` behind
      and creates no repetition. */
  lemma RemoveFirstDistinct<T>(s: seq<T>, x: T)
    requires Distinct(s)
    ensures Distinct(RemoveFirst(s, x))
    ensures x !in RemoveFirst(s, x)
  {
    if x in s {
      RemoveFirstAt(s, x);
      DropAtDistinct(s, IndexOf(s, x));
    }
  }
}
