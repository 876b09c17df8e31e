/** The value view of the two hand-written list containers: where an element is found, and what
    removing or inserting at a position does to the sequence of elements. */
module Sequences {

  /** The first index holding x, or -1 when there is none. */
  function IndexOf<T(==)>(s: seq<T>, x: T): (i: int)
    ensures -1 <= i < |s|
    ensures i == -1 <==> x !in s
    ensures i != -1 ==> s[i] == x
    decreases |s|
  {
    if s == [] then -1
    else if s[0] == x then 0
    else
      var j := IndexOf(s[1..], x);
      if j == -1 then -1 else j + 1
  }

  /** IndexOf finds the first occurrence. */
  lemma {:induction false} IndexOfIsFirst<T>(s: seq<T>, x: T)
    ensures IndexOf(s, x) != -1 ==> x !in s[..IndexOf(s, x)]
    decreases |s|
  {
    if s != [] && s[0] != x {
      IndexOfIsFirst(s[1..], x);
      assert s == [s[0]] + s[1..];
      if IndexOf(s, x) != -1 {
        assert s[..IndexOf(s, x)] == [s[0]] + s[1..][..IndexOf(s[1..], x)];
      }
    }
  }

  /** No element occurs twice. */
  ghost predicate Distinct<T>(s: seq<T>) {
    forall i, j :: 0 <= i < j < |s| ==> s[i] != s[j]
  }

  /** In a sequence without repetitions the index of s[k] is k. */
  lemma IndexOfDistinct<T>(s: seq<T>, k: int)
    requires 0 <= k < |s| && Distinct(s)
    ensures IndexOf(s, s[k]) == k
  {
    IndexOfIsFirst(s, s[k]);
  }

  /** s without position i. */
  function RemovedAt<T>(s: seq<T>, i: int): (r: seq<T>)
    requires 0 <= i < |s|
    ensures |r| == |s| - 1
    ensures forall k :: 0 <= k < i ==> r[k] == s[k]
    ensures forall k :: i <= k < |r| ==> r[k] == s[k + 1]
  {
    s[..i] + s[i + 1..]
  }

  /** Unlinking the first element after `kept` leaves `kept` and the rest after it; keeping
      it moves it to the end of `kept`. */
  lemma UnlinkAfter<T>(kept: seq<T>, rest: seq<T>)
    requires rest != []
    ensures (kept + rest)[|kept|] == rest[0]
    ensures RemovedAt(kept + rest, |kept|) == kept + rest[1..]
    ensures (kept + [rest[0]]) + rest[1..] == kept + rest
  {
    assert (kept + rest)[..|kept|] == kept && (kept + rest)[|kept| + 1..] == rest[1..];
    assert kept + rest == kept + [rest[0]] + rest[1..];
  }

  /** Splitting the entries of s into two lists one at a time keeps every entry in exactly
      one of them. */
  lemma SplitStep<T>(a: seq<T>, b: seq<T>, s: seq<T>, j: int)
    requires 0 <= j < |s| && multiset(a) + multiset(b) == multiset(s[..j])
    ensures multiset(a + [s[j]]) + multiset(b) == multiset(s[..j + 1])
    ensures multiset(a) + multiset(b + [s[j]]) == multiset(s[..j + 1])
  {
    assert s[..j + 1] == s[..j] + [s[j]];
  }

  /** s with x inserted at position i. */
  function InsertedAt<T>(s: seq<T>, i: int, x: T): (r: seq<T>)
    requires 0 <= i <= |s|
    ensures |r| == |s| + 1 && r[i] == x
    ensures forall k :: 0 <= k < i ==> r[k] == s[k]
    ensures forall k :: i < k < |r| ==> r[k] == s[k - 1]
  {
    s[..i] + [x] + s[i..]
  }

  /** s without its first x; s itself when x does not occur. */
  function RemovedFirst<T(==)>(s: seq<T>, x: T): seq<T> {
    var i := IndexOf(s, x);
    if i == -1 then s else RemovedAt(s, i)
  }

  /** Removing and then inserting at the same place gives the sequence back, and so does
      inserting and then removing. */
  lemma InsertRemoveInverse<T>(s: seq<T>, i: int, x: T)
    requires 0 <= i <= |s|
    ensures RemovedAt(InsertedAt(s, i, x), i) == s
    ensures i < |s| ==> InsertedAt(RemovedAt(s, i), i, s[i]) == s
  {
    assert RemovedAt(InsertedAt(s, i, x), i) == s[..i] + s[i..];
    assert s[..i] + s[i..] == s;
    if i < |s| {
      assert InsertedAt(RemovedAt(s, i), i, s[i]) == s[..i] + [s[i]] + s[i + 1..];
      assert s[..i] + [s[i]] + s[i + 1..] == s;
    }
  }

  /** Removing the first x drops exactly one occurrence of x when there is one, keeps the
      order of the rest, and changes nothing otherwise. */
  lemma RemovedFirstDropsOne<T>(s: seq<T>, x: T)
    ensures x !in s ==> RemovedFirst(s, x) == s
    ensures x in s ==>
      |RemovedFirst(s, x)| == |s| - 1 && multiset(RemovedFirst(s, x)) == multiset(s) - multiset{x}
  {
    IndexOfIsFirst(s, x);
    if x in s {
      var i := IndexOf(s, x);
      assert s == s[..i] + [s[i]] + s[i + 1..];
      assert multiset(s) == multiset(s[..i]) + multiset{x} + multiset(s[i + 1..]);
    }
  }

  /** Removing keeps only elements of the sequence, none more often than before. */
  lemma RemovedFirstShrinks<T>(s: seq<T>, x: T)
    ensures multiset(RemovedFirst(s, x)) <= multiset(s)
  {
    RemovedFirstDropsOne(s, x);
  }

  /** Inserting an element that does not occur keeps a sequence free of repetitions. */
  lemma InsertedDistinct<T>(s: seq<T>, i: int, x: T)
    requires 0 <= i <= |s| && Distinct(s) && x !in s
    ensures Distinct(InsertedAt(s, i, x))
  {
    var r := InsertedAt(s, i, x);
    forall a, b | 0 <= a < b < |r| ensures r[a] != r[b] {
      if a == i {
        assert r[b] == s[b - 1];
      } else if b == i {
        assert r[a] == s[a];
      } else {
        assert r[a] == s[if a < i then a else a - 1] && r[b] == s[if b < i then b else b - 1];
      }
    }
  }

  /** Removing a position keeps a sequence free of repetitions, and the removed element no
      longer occurs. */
  lemma RemovedDistinct<T>(s: seq<T>, i: int)
    requires 0 <= i < |s| && Distinct(s)
    ensures Distinct(RemovedAt(s, i)) && s[i] !in RemovedAt(s, i)
  {
    var r := RemovedAt(s, i);
    forall a, b | 0 <= a < b < |r| ensures r[a] != r[b] {
      assert r[a] == s[if a < i then a else a + 1] && r[b] == s[if b < i then b else b + 1];
    }
    forall a | 0 <= a < |r| ensures r[a] != s[i] {
      assert r[a] == s[if a < i then a else a + 1];
    }
  }

  /** The prefix one longer is the prefix and the next element. */
  lemma PrefixSnoc<T>(s: seq<T>, i: int)
    requires 0 <= i < |s|
    ensures s[..i + 1] == s[..i] + [s[i]]
  {
  }

  /** Overwriting the element just appended is appending the new one. */
  lemma UpdateAppended<T>(s: seq<T>, x: T, y: T)
    ensures (s + [x])[|s| := y] == s + [y]
  {
  }

  /** Overwriting the one element of a singleton. */
  lemma UpdateSingleton<T>(s: T, t: T)
    ensures [s][0 := t] == [t]
  {
  }

  lemma SliceSnoc<T>(s: seq<T>, a: int, b: int)
    requires 0 <= a <= b < |s|
    ensures s[a..b + 1] == s[a..b] + [s[b]]
  {
  }
}
