/** QueueP: a priority queue of `int` keys kept as a sorted singly-linked
    chain of nodes, with a cached element count. Each method works on the
    heap chain as Queue.cpp does and is proved to refine the pure
    definitions of module SortedSeq. */
module Queue {
  import opened SortedSeq

  /** One link of the chain: a key and the link after it (null at the tail). */
  class Node {
    var val: int
    var next: Node?

    constructor (val: int, next: Node?)
      ensures this.val == val && this.next == next
    {
      this.val := val;
      this.next := next;
    }
  }

  /** The node that follows position `i` of a chain, or null after its tail. */
  function Successor(chain: seq<Node>, i: int): Node? {
    if 0 <= i && i + 1 < |chain| then chain[i + 1] else null
  }

  /** A chain whose links end in null visits no node twice. */
  lemma LinkedChainDistinct(chain: seq<Node>)
    requires forall i {:trigger chain[i].next} :: 0 <= i < |chain| ==> chain[i].next == Successor(chain, i)
    ensures forall i, j :: 0 <= i < j < |chain| ==> chain[i] != chain[j]
  {
    forall i, j | 0 <= i < j < |chain|
      ensures chain[i] != chain[j]
    {
      LinkedNoRepeat(chain, i, j);
    }
  }

  lemma {:induction false} LinkedNoRepeat(chain: seq<Node>, i: nat, j: nat)
    requires forall i {:trigger chain[i].next} :: 0 <= i < |chain| ==> chain[i].next == Successor(chain, i)
    requires i < j < |chain|
    ensures chain[i] != chain[j]
    decreases |chain| - j
  {
    assert chain[i].next == chain[i + 1];
    if j + 1 < |chain| {
      LinkedNoRepeat(chain, i + 1, j + 1);
      assert chain[j].next == chain[j + 1];
    } else {
      assert chain[j].next == null;
    }
  }

  /** Relinking a chain around a spliced-in node: when `n` points at the node
      that was at position `k`, the node before that position now points at
      `n`, and every other node still points at its old successor, the
      spliced chain is linked head to tail again. */
  lemma SplicedLinks(chain: seq<Node>, k: nat, n: Node)
    requires k <= |chain|
    requires n.next == (if k < |chain| then chain[k] else null)
    requires 0 < k ==> chain[k - 1].next == n
    requires forall j {:trigger chain[j].next} :: 0 <= j < |chain| && j != k - 1 ==>
      chain[j].next == Successor(chain, j)
    ensures var r := SpliceAt(chain, k, n);
      forall j {:trigger r[j].next} :: 0 <= j < |r| ==> r[j].next == Successor(r, j)
  {
    var r := SpliceAt(chain, k, n);
    forall j | 0 <= j < |r|
      ensures r[j].next == Successor(r, j)
    {
      if j + 1 < k {
        assert r[j].next == chain[j].next;
      } else if j == k - 1 {
        assert r[j].next == chain[j].next;
      } else if k < j {
        assert r[j].next == chain[j - 1].next;
      }
    }
  }

  /** Splicing a node holding `v` into a chain whose nodes carry `keys` at
      the same position as `v` is spliced into `keys` keeps every node in
      the footprint and carrying the key at its position. */
  lemma SplicedKeys(chain: seq<Node>, keys: seq<int>, k: nat, n: Node, v: int, repr: set<object>)
    requires |chain| == |keys| && k <= |chain|
    requires n in repr && n.val == v
    requires forall j :: 0 <= j < |chain| ==> chain[j] in repr && chain[j].val == keys[j]
    ensures var r, c := SpliceAt(chain, k, n), SpliceAt(keys, k, v);
      forall j :: 0 <= j < |r| ==> r[j] in repr && r[j].val == c[j]
  {
    var r, c := SpliceAt(chain, k, n), SpliceAt(keys, k, v);
    forall j | 0 <= j < |r|
      ensures r[j] in repr && r[j].val == c[j]
    {
      if k < j {
        assert r[j] == chain[j - 1] && c[j] == keys[j - 1];
      }
    }
  }

  class QueueP {
    // the fields of QueueP in Queue.cpp
    var head: Node?
    var size: nat

    // the abstract view
    ghost var nodes: seq<Node>      // the chain's nodes, head to tail
    ghost var Contents: seq<int>    // their keys, head to tail
    ghost var Repr: set<object>     // this queue and the nodes it owns

    /** The chain invariant: `head` starts the chain `nodes`, each node links
        to the next and the last to null, the keys are `Contents` and they
        are non-decreasing. A queue owns its nodes exclusively, so its
        footprint holds no other queue. */
    ghost predicate Chained()
      reads this, Repr
    {
      && this in Repr
      && (forall q: QueueP :: q in Repr ==> q == this)
      && |nodes| == |Contents|
      && head == (if nodes == [] then null else nodes[0])
      && (forall i :: 0 <= i < |nodes| ==> nodes[i] in Repr && nodes[i].val == Contents[i])
      && (forall i {:trigger nodes[i].next} :: 0 <= i < |nodes| ==> nodes[i].next == Successor(nodes, i))
      && Sorted(Contents)
    }

    /** The object invariant: a well-formed chain whose length is the cached
        count. */
    ghost predicate Valid()
      reads this, Repr
    {
      Chained() && size == |Contents|
    }

    /** The default constructor: an empty queue. */
    constructor ()
      ensures Valid() && fresh(Repr)
      ensures Contents == [] && size == 0
    {
      head := null;
      size := 0;
      nodes := [];
      Contents := [];
      Repr := {this};
    }

    /** The copy constructor: pushes the source's keys front to back into a
        fresh queue. The source is sorted, so the copy holds the same keys in
        the same order, in nodes of its own. */
    constructor Copy(src: QueueP)
      requires src.Valid()
      ensures Valid() && fresh(Repr)
      ensures Contents == src.Contents
    {
      head := null;
      size := 0;
      nodes := [];
      Contents := [];
      Repr := {this};
      new;
      PushAll(src);
    }

    /** The move constructor: re-pushes the source's keys like the copy
        constructor, then clears the source. */
    constructor Move(src: QueueP)
      requires src.Valid()
      modifies src
      ensures Valid() && fresh(Repr)
      ensures Contents == old(src.Contents)
      ensures src.Valid() && src.Contents == [] && src.size == 0 && src.Repr == {src}
    {
      head := null;
      size := 0;
      nodes := [];
      Contents := [];
      Repr := {this};
      new;
      PushAll(src);
      src.Clear();
    }

    /** The loop shared by the copy and move constructors: walks the source's
        chain from the head and pushes each key into this (empty) queue. Since
        the source is sorted, the result is the source's sequence of keys. */
    method PushAll(src: QueueP)
      requires Valid() && src.Valid() && Contents == []
      requires Repr !! src.Repr
      modifies Repr
      ensures Valid() && fresh(Repr - old(Repr))
      ensures Contents == src.Contents
    {
      var t := src.head;
      ghost var i := 0;
      while t != null
        invariant Valid() && fresh(Repr - old(Repr))
        invariant Repr !! src.Repr
        invariant 0 <= i <= |src.nodes|
        invariant t == if i < |src.nodes| then src.nodes[i] else null
        invariant Contents == Pushed(src.Contents[..i])
        decreases |src.nodes| - i
      {
        PushedSnoc(src.Contents, i);
        assert t.next == Successor(src.nodes, i);
        Push(t.val);
        t := t.next;
        i := i + 1;
      }
      assert src.Contents[..i] == src.Contents;
      PushedSortedIdentity(src.Contents);
    }

    /** Copy assignment: a no-op on self-assignment; otherwise builds a copy
        of the source and takes over its chain and count. The source is left
        as it was. */
    method CopyAssign(src: QueueP)
      requires Valid() && src.Valid()
      modifies this
      ensures Valid() && (this != src ==> fresh(Repr - {this}))
      ensures this == src ==> head == old(head) && nodes == old(nodes) && Repr == old(Repr)
      ensures Contents == old(src.Contents)
      ensures src.Valid() && src.Contents == old(src.Contents)
    {
      if this == src {
        return;
      }
      var t := new QueueP.Copy(src);
      head, size := t.head, t.size;
      nodes, Contents, Repr := t.nodes, t.Contents, t.Repr - {t} + {this};
    }

    /** Move assignment: a no-op on self-assignment; otherwise move-constructs
        a temporary from the source (which empties the source) and takes over
        its chain and count. */
    method MoveAssign(src: QueueP)
      requires Valid() && src.Valid()
      modifies this, src
      ensures Valid() && src.Valid()
      ensures src == this ==>
        && head == old(head) && nodes == old(nodes) && Contents == old(Contents) && Repr == old(Repr)
      ensures src != this ==>
        && Contents == old(src.Contents) && fresh(Repr - {this})
        && src.Contents == [] && src.size == 0 && src.Repr == {src}
    {
      if this == src {
        return;
      }
      var t := new QueueP.Move(src);
      head, size := t.head, t.size;
      nodes, Contents, Repr := t.nodes, t.Contents, t.Repr - {t} + {this};
    }

    /** Inserts `val` so that the chain stays sorted: before the head when
        `val` is strictly smaller than it, otherwise after the last node of
        the run of keys `<= val`. */
    method Push(val: int)
      requires Valid()
      modifies Repr
      ensures Valid() && fresh(Repr - old(Repr))
      ensures Contents == Insert(old(Contents), val)
      ensures size == old(size) + 1
    {
      if head == null || val < head.val {
        LinkFront(val);
      } else {
        var t, i := FindSpot(val);
        LinkAfter(t, i, val);
      }
      size := size + 1;
    }

    /** The first case of `push`: a new head node holding `val`, linked to
        the old head. */
    method LinkFront(val: int)
      requires Chained()
      requires Contents == [] || val < Contents[0]
      modifies this
      ensures Chained() && fresh(Repr - old(Repr))
      ensures Contents == Insert(old(Contents), val)
      ensures size == old(size)
    {
      ghost var chain, keys := nodes, Contents;
      var n := new Node(val, head);
      head := n;
      SplicedLinks(chain, 0, n);
      nodes := SpliceAt(chain, 0, n);
      Contents := SpliceAt(keys, 0, val);
      Repr := Repr + {n};
      SplicedKeys(chain, keys, 0, n, val, Repr);
      InsertPreservesSorted(keys, val);
    }

    /** The second case of `push`: a new node holding `val` spliced in right
        after `t`, the node at position `i` where the walk stopped. */
    method LinkAfter(t: Node, ghost i: nat, val: int)
      requires Chained()
      requires i < |nodes| && t == nodes[i]
      requires i + 1 == InsertPosition(Contents, val)
      modifies Repr
      ensures Chained() && fresh(Repr - old(Repr))
      ensures Contents == Insert(old(Contents), val)
      ensures size == old(size)
    {
      ghost var chain, keys := nodes, Contents;
      LinkedChainDistinct(chain);
      var n := new Node(val, t.next);
      label Spliced:
      t.next := n;
      forall j | 0 <= j < |chain| && j != i
        ensures chain[j].next == Successor(chain, j)
      {
        assert chain[j] != t && old@Spliced(chain[j].next) == Successor(chain, j);
      }
      SplicedLinks(chain, i + 1, n);
      nodes := SpliceAt(chain, i + 1, n);
      Contents := SpliceAt(keys, i + 1, val);
      Repr := Repr + {n};
      SplicedKeys(chain, keys, i + 1, n, val, Repr);
      InsertPreservesSorted(keys, val);
    }

    /** The walk of `push`: starting at the head, advances while the next
        node's key is `<= val`. It stops at the node after which `val`
        belongs, the last node of the run of keys `<= val`. */
    method FindSpot(val: int) returns (t: Node, ghost i: nat)
      requires Valid()
      requires head != null && head.val <= val
      ensures i < |nodes| && t == nodes[i]
      ensures i + 1 == InsertPosition(Contents, val)
      ensures t in Repr && t.val <= val && (t.next == null || val < t.next.val)
    {
      t := head;
      i := 0;
      while t.next != null && val >= t.next.val
        invariant i < |nodes| && t == nodes[i]
        invariant forall j :: 0 <= j <= i ==> Contents[j] <= val
        decreases |nodes| - i
      {
        t := t.next;
        i := i + 1;
      }
    }

    /** Removes and returns the head, which is the minimum key; on an empty
        queue returns the sentinel 0 and changes nothing. */
    method Pop() returns (v: int)
      requires Valid()
      modifies this
      ensures Valid() && Repr <= old(Repr)
      ensures old(Contents) == [] ==> v == 0 && Contents == [] && size == 0
      ensures old(Contents) != [] ==>
        && v == old(Contents)[0] && Contents == old(Contents)[1..]
        && size == old(size) - 1
        && forall x :: x in old(Contents) ==> v <= x
    {
      if head != null {
        v := head.val;
        HeadIsMinimum(Contents);
        head := head.next;
        size := size - 1;
        nodes := nodes[1..];
        Contents := Contents[1..];
      } else {
        v := 0;
      }
    }

    /** The cached element count, which is the chain's length. */
    method GetSize() returns (n: nat)
      requires Valid()
      ensures n == |Contents|
    {
      n := size;
    }

    /** Drops the whole chain: the queue becomes empty. */
    method Clear()
      requires Valid()
      modifies this
      ensures Valid() && Repr == {this}
      ensures Contents == [] && size == 0
    {
      head := null;
      size := 0;
      nodes := [];
      Contents := [];
      Repr := {this};
    }

    /** Walks the chain from head to tail and collects its keys, which come
        out in ascending order. */
    method MakeArr() returns (arr: seq<int>)
      requires Valid()
      ensures arr == Contents
      ensures Sorted(arr) && |arr| == size
    {
      arr := [];
      var t := head;
      ghost var i := 0;
      while t != null
        invariant 0 <= i <= |nodes|
        invariant t == if i < |nodes| then nodes[i] else null
        invariant arr == Contents[..i]
        decreases |nodes| - i
      {
        arr := arr + [t.val];
        t := t.next;
        i := i + 1;
      }
    }

    /** The destructor's teardown: detaches the head one node at a time until
        the chain is empty, releasing the keys in chain order. The cached count
        is left as it was, as `QueueP` does. */
    method Destroy() returns (ghost released: seq<int>)
      requires Valid()
      modifies this
      ensures head == null && size == old(size)
      ensures released == old(Contents)
    {
      released := [];
      ghost var i := 0;
      while head != null
        invariant 0 <= i <= |nodes|
        invariant head == if i < |nodes| then nodes[i] else null
        invariant |Contents| == |nodes|
        invariant released == Contents[..i]
        invariant unchanged(`size) && unchanged(`nodes) && unchanged(`Contents) && unchanged(`Repr)
        decreases |nodes| - i
      {
        released := released + [head.val];
        head := head.next;
        i := i + 1;
      }
    }
  }
}
