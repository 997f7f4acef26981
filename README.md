# Singly linked list (algorithms-rs) in Dafny

This project models `SinglyLinkedList<T>`, the singly linked list of the
algorithms-rs teaching collection, and proves its operations correct.

The list keeps a `head` pointer and a `tail` pointer into a chain of heap
nodes. Each node holds a `value` and an optional `next`. The list offers
`prepend`, `append`, `delete_head`, `delete_tail` (a forward walk to the
tail's predecessor) and `find` (a linear search by equality).

The Dafny model is imperative, like the source:

- `SinglyLinkedList.Node` is a class with a `value` and a mutable `next: Node?`.
- `SinglyLinkedList.List` is a class with `head` and `tail` fields. It also has
  two ghost fields: `nodes`, the chain in head-to-tail order, and `Repr`, the
  set of the chain's nodes.
- `Valid()` is the structural invariant. `head` is null exactly when `tail`
  is, and exactly when the chain is empty. `head` is the first node of
  `nodes` and `tail` the last. Each node's `next` is the following node and
  `tail.next` is null. No node occurs twice, so the chain has no cycle.
- `Seq()` is the list's abstract value: the values of `nodes`, in order.
- Node identity is reference equality, as in the source's pointer comparison
  `tail == head`.

Each mutating method requires `Valid()`, re-establishes it, and states its
result and its new `Seq()`, `head` and `tail` in terms of the old state.
`Find` also requires `Valid()`; it has no `modifies` clause, so it changes
nothing (`Valid()`, `head`, `tail` and the contents stay as they were), and
its postconditions state only its result.

`delete_tail` and `find` keep the source's `loop` shape, with a cursor whose
index in `nodes` is a ghost variable. `delete_tail` advances while the
cursor's successor is not the last node. It then sets the cursor's `next` to
null, and the next iteration leaves the loop.

Module `Scenarios` is a client of the list. It restates the source's unit
tests as methods whose postconditions give the observed values. It also
proves the drain orders:

- Prepending `vs` and then deleting heads yields `vs` reversed.
- Appending `vs` and then deleting tails yields `vs` reversed.
- Afterwards the list is empty, and one more deletion returns None.

## Model

| member | source | states |
|---|---|---|
| `SinglyLinkedList.Node.constructor` | src/singly_linked_list.rs:23-28 | a new node holds the given value and has no successor |
| `SinglyLinkedList.List.constructor` | src/singly_linked_list.rs:39-44 | a new list is valid, `head` and `tail` are null and its contents are empty |
| `SinglyLinkedList.List.Prepend` | src/singly_linked_list.rs:46-61 | returns true; contents become `[v] + old`; `head` is a fresh node holding `v` whose `next` is the old head, and the chain is that node followed by the old chain; `tail` is unchanged unless the list was empty, when it is the new node; the invariant is preserved |
| `SinglyLinkedList.List.DeleteHead` | src/singly_linked_list.rs:63-81 | on an empty list returns None and leaves the list empty; otherwise returns the first value, contents become `old[1..]`, `head` becomes the old head's successor, the old head leaves the footprint, and `tail` is cleared exactly when the list becomes empty; the invariant is preserved |
| `SinglyLinkedList.List.Append` | src/singly_linked_list.rs:83-99 | returns true; contents become `old + [v]`; `tail` is a fresh node holding `v` with no successor, and the chain is the old chain followed by that node; `head` is unchanged unless the list was empty, when it is the new node; the invariant is preserved |
| `SinglyLinkedList.List.DeleteTail` | src/singly_linked_list.rs:101-134 | on an empty list returns None; on one element clears both `head` and `tail`; otherwise `head` is kept and the new `tail` is the former predecessor of the tail, whose `next` is now null; in every non-empty case returns the last value and contents become `old[..|old|-1]`; the invariant is preserved |
| `SinglyLinkedList.List.Find` | src/singly_linked_list.rs:136-157 | changes nothing; returns `Some(v)` if `v` occurs in the contents and None otherwise (also on an empty list); the scan stops at the first occurrence in head-to-tail order and returns that node's value |
| `SinglyLinkedList.FirstIndex` | src/singly_linked_list.rs:144-156 | the index where a front-to-back scan for `v` stops: `v` is there and at no earlier index; no index exactly when `v` does not occur |
| `SinglyLinkedList.List.FollowAlong` | src/singly_linked_list.rs:31-34 | following `next` `k` times from the node at position `i` of a valid chain reaches position `i + k`, or null once the tail has been passed |
| `SinglyLinkedList.List.ChainEndsAtTail` | src/singly_linked_list.rs:31-34 | in a valid list, following `next` from `head` visits the chain in order, reaches `tail` after `|nodes| - 1` steps and ends (null) one step later |
| `Scenarios.PrependScenario` | src/singly_linked_list.rs:165-173 | after prepending "foo" to a new list, the head holds "foo" |
| `Scenarios.DeleteHeadScenario` | src/singly_linked_list.rs:176-184 | after prepending "foo", deleting the head returns `Some("foo")` and a second deletion returns None |
| `Scenarios.AppendScenario` | src/singly_linked_list.rs:187-196 | both appends return true, and after appending "foo" and "bar" the tail holds "bar" |
| `Scenarios.DeleteTailScenario` | src/singly_linked_list.rs:199-209 | after appending foo, bar and baz, deleting the tail returns `Some("baz")` and the tail then holds "bar" |
| `Scenarios.FindScenario` | src/singly_linked_list.rs:212-220 | in the list foo, bar, baz, `find("bar")` returns `Some("bar")` and `find("aaa")` returns None |
| `Scenarios.FromAppends` | src/singly_linked_list.rs:83-99 | appending `vs` one by one to a new list yields a valid list whose contents are `vs` |
| `Scenarios.FromPrepends` | src/singly_linked_list.rs:46-61 | prepending `vs` one by one to a new list yields a valid list whose contents are `vs` reversed |
| `Scenarios.DrainHead` | src/singly_linked_list.rs:63-81 | deleting the head until the list is empty returns the contents in order and leaves `head` and `tail` null |
| `Scenarios.DrainTail` | src/singly_linked_list.rs:101-134 | deleting the tail until the list is empty returns the contents in reverse order and leaves `head` and `tail` null |
| `Scenarios.AppendThenDrainTail` | src/singly_linked_list.rs:101-134 | appending `vs` and then deleting the tail `|vs|` times returns `vs` reversed; a further `delete_tail` returns None and the list stays empty |
| `Scenarios.PrependThenDrainHead` | src/singly_linked_list.rs:63-81 | prepending `vs` and then deleting the head `|vs|` times returns `vs` reversed; a further `delete_head` returns None and the list stays empty |

## Left out

- The `Display` implementation for nodes (src/singly_linked_list.rs:10-17) is string formatting with no logic.
- The raw-pointer and allocation mechanics (`Box::into_raw_non_null`, `NonNull::as_ptr`, `unsafe`) are not modelled. Nodes are Dafny heap objects, and a `NonNull` pointer is a non-null reference.
- Deallocation is not modelled. The source never frees an unlinked node; the model only drops the node from the ghost footprint `Repr`.
- Allocation failure is not modelled. Allocating a node always succeeds in Dafny.
- `#[derive(PartialEq)]` on nodes and the `Display + Copy + Clone` trait bounds are replaced by a type parameter `T(==)`. Values are copied out as plain values.
- `Node.value` is a `const`. In the source it is a public field, but the list never writes it after the node is created. Writes to the public fields `value`, `next`, `head` or `tail` from outside the list are not modelled; they could break the invariant.
- An unlinked head node still points at its old successor, as in the source. The model keeps that pointer but says nothing about it, because the node is no longer part of any list.
- src/lib.rs holds only module declarations, a feature flag and a trivial test. Its other modules (bit, factorial, fibonacci, gcd, lcm, prime, queue, stack and others) are not part of this model.
