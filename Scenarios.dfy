/** The unit tests of Queue.cpp as verified client code. The keys that the
    tests draw at random become the parameter `xs`: each method states what
    its test checks, for every list of keys. */
module Scenarios {
  import opened SortedSeq
  import opened Queue

  /** Pushes the keys of `xs`, in order, into a new queue. */
  method Fill(xs: seq<int>) returns (q: QueueP)
    ensures q.Valid() && fresh(q.Repr)
    ensures q.Contents == Pushed(xs) && q.size == |xs|
  {
    q := new QueueP();
    for i := 0 to |xs|
      invariant q.Valid() && fresh(q.Repr)
      invariant q.Contents == Pushed(xs[..i]) && q.size == i
    {
      PushedSnoc(xs, i);
      q.Push(xs[i]);
    }
    assert xs[..|xs|] == xs;
  }

  /** Push_random: after pushing `xs`, the array made from the queue is the
      ascending sort of `xs`. */
  method PushThenMakeArr(xs: seq<int>) returns (arr: seq<int>)
    ensures Sorted(arr) && multiset(arr) == multiset(xs)
  {
    var q := Fill(xs);
    arr := q.MakeArr();
    PushedSortsInput(xs);
  }

  /** Pop_random: popping a queue filled from `xs` yields the smallest key
      of `xs`, and 0 when `xs` is empty. */
  method PushThenPop(xs: seq<int>) returns (v: int)
    ensures xs == [] ==> v == 0
    ensures xs != [] ==> v in xs && forall x :: x in xs ==> v <= x
  {
    var q := Fill(xs);
    PushedSortsInput(xs);
    assert forall x :: x in xs <==> x in q.Contents by {
      assert forall x :: x in xs <==> x in multiset(xs);
    }
    v := q.Pop();
  }

  /** Copy_lhs_1: a copy-constructed queue makes the same array as its
      source. */
  method CopyConstructed(xs: seq<int>) returns (a1: seq<int>, a2: seq<int>)
    ensures a1 == a2
    ensures Sorted(a1) && multiset(a1) == multiset(xs)
  {
    var q1 := Fill(xs);
    var q2 := new QueueP.Copy(q1);
    a1 := q1.MakeArr();
    a2 := q2.MakeArr();
    PushedSortsInput(xs);
  }

  /** Copy_lhs_2: after copy assignment both queues make the same array. */
  method CopyAssigned(xs: seq<int>) returns (a1: seq<int>, a2: seq<int>)
    ensures a1 == a2
    ensures Sorted(a1) && multiset(a1) == multiset(xs)
  {
    var q1 := Fill(xs);
    var q2 := new QueueP();
    q2.CopyAssign(q1);
    a1 := q1.MakeArr();
    a2 := q2.MakeArr();
    PushedSortsInput(xs);
  }

  /** Copy_rhs_1: a move-constructed queue makes the sorted array of `xs`
      and the moved-from queue reports size 0. */
  method MoveConstructed(xs: seq<int>) returns (arr: seq<int>, n: nat)
    ensures Sorted(arr) && multiset(arr) == multiset(xs)
    ensures n == 0
  {
    var q1 := Fill(xs);
    var q2 := new QueueP.Move(q1);
    arr := q2.MakeArr();
    n := q1.GetSize();
    PushedSortsInput(xs);
  }

  /** Copy_rhs_2: the same through move assignment. */
  method MoveAssigned(xs: seq<int>) returns (arr: seq<int>, n: nat)
    ensures Sorted(arr) && multiset(arr) == multiset(xs)
    ensures n == 0
  {
    var q1 := Fill(xs);
    var q2 := new QueueP();
    q2.MoveAssign(q1);
    arr := q2.MakeArr();
    n := q1.GetSize();
    PushedSortsInput(xs);
  }
}
