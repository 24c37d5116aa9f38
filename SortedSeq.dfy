/** The abstract contents of a QueueP: a non-decreasing sequence of keys, and
    the ordered insertion that `push` performs on it. Everything here is pure;
    the queue's methods are proved to refine these definitions. */
module SortedSeq {

  /** Non-decreasing order, the order in which the queue keeps its chain. */
  predicate Sorted(s: seq<int>) {
    forall i, j :: 0 <= i < j < |s| ==> s[i] <= s[j]
  }

  /** Where `push` splices a new key `v` into the chain holding `s`: the first
      position whose key is strictly greater than `v`, or the end when there is
      none. Every key before that position is `<= v`. */
  function InsertPosition(s: seq<int>, v: int): (k: nat)
    ensures k <= |s|
    ensures forall i :: 0 <= i < k ==> s[i] <= v
    ensures k < |s| ==> v < s[k]
  {
    if s == [] || v < s[0] then 0 else 1 + InsertPosition(s[1..], v)
  }

  /** `s` with `x` spliced in at position `k`: the elements before `k` stay
      where they are, `x` takes position `k`, and the rest move up by one. */
  function SpliceAt<T>(s: seq<T>, k: nat, x: T): (r: seq<T>)
    requires k <= |s|
    ensures |r| == |s| + 1 && r[k] == x
    ensures forall j :: 0 <= j < k ==> r[j] == s[j]
    ensures forall j :: k < j < |r| ==> r[j] == s[j - 1]
  {
    s[..k] + [x] + s[k..]
  }

  /** The contents after `push(v)`: `v` spliced in at InsertPosition(s, v). */
  function Insert(s: seq<int>, v: int): (r: seq<int>)
    ensures |r| == |s| + 1
  {
    SpliceAt(s, InsertPosition(s, v), v)
  }

  /** `push` adds exactly one occurrence of `v` and loses nothing. */
  lemma InsertMultiset(s: seq<int>, v: int)
    ensures multiset(Insert(s, v)) == multiset(s) + multiset{v}
  {
    var k := InsertPosition(s, v);
    assert s == s[..k] + s[k..];
  }

  /** In a sorted sequence the insertion point is exactly the number of keys
      `<= v`: a key equal to `v` stays before the new one, a greater key goes
      after it. */
  lemma InsertAfterEqualKeys(s: seq<int>, v: int)
    requires Sorted(s)
    ensures forall i :: 0 <= i < |s| ==> (s[i] <= v <==> i < InsertPosition(s, v))
  {
    var k := InsertPosition(s, v);
    forall i | 0 <= i < |s|
      ensures s[i] <= v <==> i < k
    {
      if k <= i {
        assert s[k] <= s[i];
      }
    }
  }

  /** Inserting keeps every other key, in its old order: deleting the new key
      from the result gives back the old sequence. */
  lemma InsertKeepsOthers(s: seq<int>, v: int)
    ensures var k := InsertPosition(s, v);
      Insert(s, v)[k] == v && Insert(s, v)[..k] + Insert(s, v)[k + 1..] == s
  {
    var k := InsertPosition(s, v);
    var r := Insert(s, v);
    assert r[..k] == s[..k];
    assert r[k + 1..] == s[k..];
  }

  /** `push` keeps the chain sorted. */
  lemma InsertPreservesSorted(s: seq<int>, v: int)
    requires Sorted(s)
    ensures Sorted(Insert(s, v))
  {
    var k := InsertPosition(s, v);
    var r := Insert(s, v);
    InsertAfterEqualKeys(s, v);
    forall i, j | 0 <= i < j < |r|
      ensures r[i] <= r[j]
    {
      if j < k {
        assert r[i] == s[i] && r[j] == s[j];
      } else if j == k {
        assert r[i] == s[i] && r[j] == v;
      } else if i == k {
        assert r[i] == v && r[j] == s[j - 1];
      } else if i < k {
        assert r[i] == s[i] && r[j] == s[j - 1];
      } else {
        assert r[i] == s[i - 1] && r[j] == s[j - 1];
      }
    }
  }

  /** A key no smaller than every key of `s` goes to the tail. This is why
      re-pushing an already sorted chain front to back copies it. */
  lemma InsertAtEnd(s: seq<int>, v: int)
    requires forall i :: 0 <= i < |s| ==> s[i] <= v
    ensures Insert(s, v) == s + [v]
  {
    var k := InsertPosition(s, v);
    assert k == |s|;
  }

  /** The contents of an initially empty queue after pushing `xs` front to
      back. */
  function Pushed(xs: seq<int>): (r: seq<int>)
    ensures |r| == |xs|
    decreases |xs|
  {
    if xs == [] then [] else Insert(Pushed(xs[..|xs| - 1]), xs[|xs| - 1])
  }

  /** Pushing any list into an empty queue leaves it sorted and holding
      exactly the pushed keys. */
  lemma {:induction false} PushedSortsInput(xs: seq<int>)
    ensures Sorted(Pushed(xs))
    ensures multiset(Pushed(xs)) == multiset(xs)
    decreases |xs|
  {
    if xs != [] {
      var init, last := xs[..|xs| - 1], xs[|xs| - 1];
      PushedSortsInput(init);
      InsertPreservesSorted(Pushed(init), last);
      InsertMultiset(Pushed(init), last);
      assert xs == init + [last];
    }
  }

  /** Pushing the next key of a list inserts it into the queue built from
      the keys before it. */
  lemma PushedSnoc(xs: seq<int>, i: nat)
    requires i < |xs|
    ensures Pushed(xs[..i + 1]) == Insert(Pushed(xs[..i]), xs[i])
  {
    assert xs[..i + 1][..i] == xs[..i];
  }

  /** A sorted sequence is determined by its multiset of keys. */
  lemma {:induction false} SortedPermutationUnique(a: seq<int>, b: seq<int>)
    requires Sorted(a) && Sorted(b)
    requires multiset(a) == multiset(b)
    ensures a == b
    decreases |a|
  {
    assert |a| == |multiset(a)| == |multiset(b)| == |b|;
    if a != [] {
      assert a[0] in multiset(b) && b[0] in multiset(a);
      HeadIsMinimum(a);
      HeadIsMinimum(b);
      assert a[0] == b[0];
      calc {
        multiset(a[1..]);
        { assert a == [a[0]] + a[1..]; }
        multiset(a) - multiset{a[0]};
        { assert b == [b[0]] + b[1..]; }
        multiset(b[1..]);
      }
      SortedPermutationUnique(a[1..], b[1..]);
    }
  }

  /** Pushing the keys of an already sorted sequence in order reproduces that
      sequence exactly. */
  lemma {:induction false} PushedSortedIdentity(xs: seq<int>)
    requires Sorted(xs)
    ensures Pushed(xs) == xs
    decreases |xs|
  {
    if xs != [] {
      var init, last := xs[..|xs| - 1], xs[|xs| - 1];
      assert Sorted(init);
      PushedSortedIdentity(init);
      InsertAtEnd(init, last);
      assert xs == init + [last];
    }
  }

  /** Pushing any list into an empty queue yields the ascending sort of that
      list: the one sorted sequence with the same keys. */
  lemma PushedIsSort(xs: seq<int>, ys: seq<int>)
    requires Sorted(ys) && multiset(ys) == multiset(xs)
    ensures Pushed(xs) == ys
  {
    PushedSortsInput(xs);
    SortedPermutationUnique(Pushed(xs), ys);
  }

  /** The first key of a sorted sequence is its minimum. */
  lemma HeadIsMinimum(s: seq<int>)
    requires Sorted(s) && s != []
    ensures forall x :: x in s ==> s[0] <= x
  {
    forall x | x in s
      ensures s[0] <= x
    {
      var i :| 0 <= i < |s| && s[i] == x;
      assert i == 0 || s[0] <= s[i];
    }
  }
}
