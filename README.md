# QueueP: a sorted linked-list priority queue, modelled in Dafny

`QueueP` (Queue.cpp) is a priority queue of `int` keys. It keeps its keys in a
singly-linked chain of nodes in non-decreasing order, and it caches the element
count in `size`.

- `push` splices a new node in after every key `<=` the new one. The walk starts
  at the head, and a key smaller than the head becomes the new head.
- `pop` detaches the head, which is the minimum, and returns its key. On an empty
  queue it returns 0 and changes nothing.
- `clear` drops the chain.
- `make_arr` collects the keys head to tail.
- The copy and move constructors re-push the source's keys front to back. The
  move constructor then clears the source.
- Both assignment operators do nothing on self-assignment. Otherwise they build
  a temporary by copy or move construction and swap its chain and count in.
- The destructor detaches nodes from the head until the chain is empty.

The model has three modules:

- `SortedSeq` (SortedSeq.dfy) holds the pure view:
  - `Sorted`;
  - the insertion point and the insertion that `push` performs (`InsertPosition`, `Insert`);
  - `Pushed`, the contents of a queue built by pushing a list;
  - the lemmas about these: sortedness and multiset preservation, placement after equal keys, and that pushing any list yields its ascending sort.
- `Queue` (Queue.dfy) models `QueueP` as a class over a heap chain of `Node` objects:
  - the ghost fields are `nodes` (the chain), `Contents` (its keys) and `Repr` (the footprint);
  - the invariant `Valid()` ties `head`, the `next` links and `size` to them;
  - every method is proved against the `SortedSeq` definitions.
- `Scenarios` (Scenarios.dfy) holds the unit tests of Queue.cpp as client methods. The randomly drawn keys become a parameter `xs`, so each test's check is proved for every list of keys.

## Model

| member | source | states |
|---|---|---|
| SortedSeq.InsertPosition | Queue.cpp:83-90 | the place `push` puts a key: every key before it is `<= v`, and the key at it (if any) is `> v` |
| SortedSeq.SpliceAt | Queue.cpp:84-90 | splicing a node or key in at position `k` keeps the earlier elements, puts the new one at `k` and shifts the rest up by one |
| SortedSeq.Insert | Queue.cpp:82-93 | the contents after `push(v)` have one more key |
| SortedSeq.InsertMultiset | Queue.cpp:82-93 | `push` adds exactly one occurrence of `v` and loses no key |
| SortedSeq.InsertAfterEqualKeys | Queue.cpp:87 | in a sorted chain a key lies before the new one exactly when it is `<= v`: equal keys stay ahead of the new key, greater keys go after it |
| SortedSeq.InsertKeepsOthers | Queue.cpp:84-90 | removing the new key from the result gives back the old chain, in order |
| SortedSeq.InsertPreservesSorted | Queue.cpp:82-93 | `push` keeps the chain non-decreasing |
| SortedSeq.InsertAtEnd | Queue.cpp:87-90 | a key no smaller than every key goes to the tail |
| SortedSeq.Pushed | Queue.cpp:142-151 | a queue built by pushing a list holds as many keys as the list |
| SortedSeq.PushedSortsInput | Queue.cpp:186-214 | pushing any list into an empty queue yields a sorted chain with exactly the pushed keys |
| SortedSeq.PushedSnoc | Queue.cpp:41-44 | pushing the next key inserts it into the queue built from the keys before it |
| SortedSeq.SortedPermutationUnique | Queue.cpp:150 | two sorted sequences with the same keys are equal, so the sorted order the tests compare against is unique |
| SortedSeq.PushedSortedIdentity | Queue.cpp:38-45 | re-pushing a sorted chain front to back reproduces it exactly |
| SortedSeq.PushedIsSort | Queue.cpp:186-214 | pushing any list gives the one sorted sequence with the same keys, which is what `std::sort` produces |
| SortedSeq.HeadIsMinimum | Queue.cpp:95-100 | the head key of a sorted chain is its minimum |
| Queue.LinkedChainDistinct | Queue.cpp:25-28 | a chain whose links end in null visits no node twice |
| Queue.LinkedNoRepeat | Queue.cpp:25-28 | one step of that proof: two positions of such a chain hold different nodes |
| Queue.SplicedLinks | Queue.cpp:84-90 | after a new node is spliced in at position `k`, every link of the new chain leads to the next node, and the last to null |
| Queue.SplicedKeys | Queue.cpp:84-90 | the spliced chain's nodes carry the spliced keys and stay in the footprint |
| Queue.Node.constructor | Queue.cpp:84-90 | a new node holds the given key and link |
| Queue.QueueP.constructor | Queue.cpp:36 | the default constructor gives an empty, valid queue of size 0 |
| Queue.QueueP.Copy | Queue.cpp:38-45 | the copy constructor gives a valid queue with the source's keys in the source's order, in fresh nodes |
| Queue.QueueP.Move | Queue.cpp:47-56 | the move constructor gives the source's keys in order, and the source is left valid and empty with size 0, owning no node |
| Queue.QueueP.PushAll | Queue.cpp:39-44 | the constructors' loop: pushing the source's keys head to tail into an empty queue yields the source's key sequence, with the source untouched |
| Queue.QueueP.CopyAssign | Queue.cpp:58-68 | copy assignment leaves this queue with the source's keys in fresh nodes and leaves the source as it was, and self-assignment keeps the head, the chain, the keys and the footprint |
| Queue.QueueP.MoveAssign | Queue.cpp:70-80 | move assignment gives this queue the source's old keys and leaves the source empty with size 0 and owning no node; self-assignment keeps the head, the chain, the keys and the footprint |
| Queue.QueueP.Push | Queue.cpp:82-93 | `push(val)` makes the keys `Insert(old keys, val)`, keeps the queue valid and adds one to `size` |
| Queue.QueueP.LinkFront | Queue.cpp:83-84 | when the queue is empty or `val` is below the head, a new head holding `val` gives `Insert(old keys, val)` |
| Queue.QueueP.FindSpot | Queue.cpp:86-89 | the walk stops at a node of the chain whose key is `<= val` and whose successor is null or holds a key `> val`, which is the node just before the insertion point |
| Queue.QueueP.LinkAfter | Queue.cpp:90 | linking a new node after the node where the walk stopped gives `Insert(old keys, val)` |
| Queue.QueueP.Pop | Queue.cpp:95-104 | on a non-empty queue, returns the head key, which is the minimum, and removes it, with `size` down by one; on an empty queue, returns 0 and changes nothing |
| Queue.QueueP.GetSize | Queue.cpp:106-108 | returns the number of keys and changes nothing |
| Queue.QueueP.Clear | Queue.cpp:110-113 | the queue becomes empty with size 0 and owns no nodes |
| Queue.QueueP.MakeArr | Queue.cpp:124-134 | returns the keys head to tail, which are sorted and as many as `size`, and changes nothing |
| Queue.QueueP.Destroy | Queue.cpp:136-140 | the teardown detaches every node of the chain in order, leaves `head` null and does not touch `size` |
| Scenarios.Fill | Queue.cpp:153-159 | pushing the keys of `xs` into a new queue gives `Pushed(xs)`, with `size` equal to the number of keys pushed |
| Scenarios.PushThenMakeArr | Queue.cpp:186-214 | the array made after pushing `xs` is sorted and holds exactly the keys of `xs` |
| Scenarios.PushThenPop | Queue.cpp:216-241 | popping after pushing `xs` yields the smallest key of `xs`, or 0 when `xs` is empty |
| Scenarios.CopyConstructed | Queue.cpp:243-252 | a copy-constructed queue makes the same array as its source |
| Scenarios.CopyAssigned | Queue.cpp:254-263 | after copy assignment both queues make the same array |
| Scenarios.MoveConstructed | Queue.cpp:265-276 | a move-constructed queue makes the sorted array of `xs`, and the moved-from queue reports size 0 |
| Scenarios.MoveAssigned | Queue.cpp:278-288 | after move assignment the target makes the sorted array of `xs`, and the source reports size 0 |

## Left out

- `print` (Queue.cpp:115-122) writes to standard output. It reads the chain the same way `make_arr` does and is not modelled.
- The two `random` helpers (Queue.cpp:142-159) draw keys with `rand()`. The drawn keys become the parameter `xs` of `Scenarios.Fill` and of the test methods, and the `std::sort` of the first helper is characterised by `SortedSeq.PushedIsSort`.
- The doctest harness and the commented-out `main` are not modelled.
- Memory release is not modelled. The `unique_ptr` links that free nodes are plain references here, and a detached node simply becomes unreachable. Ownership is expressed by `Repr`: a queue's footprint holds its own nodes and no other queue.
- Keys are unbounded integers. The original's `int` keys are only compared and copied, never computed with, so no overflow can arise there.
- `size_t` wrap-around of `size` is not modelled. `size` is a `nat`, and it cannot exceed the chain's length.
- The ghost fields `nodes`, `Contents` and `Repr` are specification only; the original keeps only `head` and `size`.
- Queue.QueueP.Push is split into `LinkFront`, `FindSpot` and `LinkAfter` along the branches of `push`. The statements are the original's, in the same order.
- Queue.QueueP.CopyAssign and Queue.QueueP.MoveAssign take over the temporary's chain by assignment, not by `std::swap`. The temporary's old chain would be released with it, so no difference is observable.
- Queue.QueueP.Destroy models the destructor's loop as a method. The object's lifetime ending after it is not modelled.
