# Singly-linked list, modelled in Dafny

This project models `Singly_linkedlist.LinkedList<T>`. It is a generic singly-linked list that keeps a `head`
reference, a `tail` reference and a `Count`. Each private `Node` holds an immutable `Value` and a mutable `Next`.
The list offers:

- `AddFirst` and `AddLast`;
- `Contains`, built on the private `Find`;
- `First`, which throws `InvalidOperationException("List is empty")` on an empty list;
- `Remove`, which deletes the first occurrence of a value, repairs `head` and `tail`, and reports success;
- `Clear`;
- `ToString`, which renders `"[]"` or `"[{v1}, {v2}, ...]"`.

Files:

- `list_spec.dfy` (module `ListSpec`) is the abstract meaning of the list: its contents as a sequence, head to tail.
  - `IndexOf` finds the first occurrence.
  - `RemoveFirst` deletes it.
  - `Reversed` reads a sequence backwards.
  - Lemmas relate these to each other and to multisets.
- `rendering.dfy` (module `Rendering`) is the reference text of a list.
  - `Braced` renders one node, `Join` joins parts with a separator, and `Render` renders the whole list.
  - Lemmas describe how the text grows, one node at a time.
- `linked_list.dfy` (module `SinglyLinkedList`) is the heap structure.
  - `Node` and `LinkedList` are classes.
  - Ghost fields describe the chain: `Contents` (the values), `Nodes` (the node objects) and `Repr` (the objects the list owns).
  - `Valid()` is the invariant:
    - `count` is the chain length;
    - `head` and `tail` are null exactly when the list is empty;
    - `Nodes` is the chain from `head` along `next`;
    - `tail` is the last node and has no successor.
  - Acyclicity is derived from `Valid()` as a lemma.
  - Every operation is specified against `Contents`.
- `scenario.dfy` (module `Scenario`) is a client at `T = int` with decimal rendering.
  - It fills lists by repeated `AddLast` or `AddFirst`.
  - `Run` calls a fixed sequence of operations, and its postconditions fix the resulting texts and results.
  - This includes `AddLast` landing after the repaired tail once the tail is removed.

`First` is a function that returns `Result<T>`. The thrown exception is modelled as `Failure(InvalidOperation("List is empty"))`.

The text of an element is a parameter `show: T -> string`. It stands for .NET's `ToString` of `T`.

`Remove` follows the source's branches, split into smaller methods:

- an empty list returns false;
- a match at the head advances `head`, and clears `tail` if the list became empty (`RemoveAtHead`, `UnlinkHead`);
- otherwise a scan looks for the predecessor of the first match (`FindPredecessor`);
- the match is then spliced out, and the predecessor becomes the tail when the removed node was the tail (`UnlinkAfter`).

## Model

| member | source | states |
|---|---|---|
| ListSpec.IndexOf | Singly-linkedlist/Singly-linkedlist/Program.cs:321-330 | the position `Find` stops at holds `v`, and no earlier position holds `v` |
| ListSpec.IndexOfUnique | Singly-linkedlist/Singly-linkedlist/Program.cs:324-327 | a position holding `v` with no `v` before it is the first occurrence |
| ListSpec.RemoveFirst | Singly-linkedlist/Singly-linkedlist/Program.cs:361-391 | removing an absent value leaves the contents as they were; otherwise the contents shrink by exactly one |
| ListSpec.RemoveFirstAt | Singly-linkedlist/Singly-linkedlist/Program.cs:365-385 | when the first `v` is at `k`, removal cuts out exactly position `k` and keeps the elements before and after it in order |
| ListSpec.RemoveFirstSplices | Singly-linkedlist/Singly-linkedlist/Program.cs:365-385 | for any present `v`, removal splices out its first occurrence and nothing else |
| ListSpec.RemoveFirstMultiset | Singly-linkedlist/Singly-linkedlist/Program.cs:361-391 | removal takes away exactly one copy of `v` when there is one, and nothing otherwise |
| ListSpec.RemoveFirstInsertBack | Singly-linkedlist/Singly-linkedlist/Program.cs:361-391 | inserting `v` back at its old position restores the contents from before the removal |
| ListSpec.RemoveFirstUnchangedIff | Singly-linkedlist/Singly-linkedlist/Program.cs:361-391 | removal leaves the contents unchanged if and only if `v` is absent |
| ListSpec.Reversed | Singly-linkedlist/Singly-linkedlist/Program.cs:332-341 | element `i` of the reversal is element `n - 1 - i` of the input; this is the order that repeated `AddFirst` builds |
| Rendering.Braced | Singly-linkedlist/Singly-linkedlist/Program.cs:290 | a node's text is the value's own text with exactly one '{' before it and one '}' after it |
| Rendering.JoinAppend | Singly-linkedlist/Singly-linkedlist/Program.cs:406-411 | appending a part after a non-empty join adds one separator and that part |
| Rendering.ItemsAppend | Singly-linkedlist/Singly-linkedlist/Program.cs:406-411 | the node texts of a list extended at the end are its old node texts followed by the new node's braced value |
| Rendering.JoinItemsPrefixStep | Singly-linkedlist/Singly-linkedlist/Program.cs:406-411 | rendering one more node adds a separator and its braced value, except before the first node |
| Rendering.OpenedStep | Singly-linkedlist/Singly-linkedlist/Program.cs:406-411 | appending a node's text, and ", " when a successor follows, advances the partial text by exactly one node |
| Rendering.OpenedDone | Singly-linkedlist/Singly-linkedlist/Program.cs:412-414 | closing the bracket after the last node gives the reference rendering |
| Rendering.RenderEmptyIff | Singly-linkedlist/Singly-linkedlist/Program.cs:400-415 | the text is "[]" if and only if the list is empty |
| Rendering.RenderAppend | Singly-linkedlist/Singly-linkedlist/Program.cs:400-415 | after `AddLast(v)` on a non-empty list, the text is the old text with ", {v}" inserted before the closing bracket |
| SinglyLinkedList.Node.constructor | Singly-linkedlist/Singly-linkedlist/Program.cs:285-288 | a new node holds the given value and has no successor |
| SinglyLinkedList.Node.ToString | Singly-linkedlist/Singly-linkedlist/Program.cs:290 | the node's text is its value's text wrapped in one pair of braces |
| SinglyLinkedList.LinkedList.Valid | Singly-linkedlist/Singly-linkedlist/Program.cs:293-295 | the invariant over `head`, `tail` and `Count`: count is the chain length, head and tail are null exactly when empty, and tail is the last node with no successor; every operation except `Clear` requires it, and every mutating operation, `Clear` included, ensures it |
| SinglyLinkedList.LinkedList.constructor | Singly-linkedlist/Singly-linkedlist/Program.cs:297-301 | a new list is valid and empty: no contents, count 0, head and tail null |
| SinglyLinkedList.LinkedList.SameNodeSameSuffix | Singly-linkedlist/Singly-linkedlist/Program.cs:280-295 | if a node occurred at two positions, the chains from those positions would coincide |
| SinglyLinkedList.LinkedList.NodesDistinct | Singly-linkedlist/Singly-linkedlist/Program.cs:280-295 | the chain from `head` is acyclic: no node occurs at two positions |
| SinglyLinkedList.LinkedList.First | Singly-linkedlist/Singly-linkedlist/Program.cs:304-313 | fails with InvalidOperation("List is empty") exactly when the list is empty; otherwise returns the head value, without changing state |
| SinglyLinkedList.LinkedList.Contains | Singly-linkedlist/Singly-linkedlist/Program.cs:316-319 | true if and only if the value is in the contents |
| SinglyLinkedList.LinkedList.Find | Singly-linkedlist/Singly-linkedlist/Program.cs:321-330 | null exactly when the value is absent; otherwise the node at the first occurrence, head to tail |
| SinglyLinkedList.LinkedList.AddFirst | Singly-linkedlist/Singly-linkedlist/Program.cs:332-341 | contents become `[v] + old`, count grows by one, the new node is `head` and links to the old head, the chain is the new node followed by the old chain, and on an empty list it is also `tail` |
| SinglyLinkedList.LinkedList.AddLast | Singly-linkedlist/Singly-linkedlist/Program.cs:343-359 | contents become `old + [v]` and count grows by one; on an empty list the new node is head and tail, otherwise it is linked after the old tail and becomes the tail; the chain is the old chain followed by the new node |
| SinglyLinkedList.LinkedList.Remove | Singly-linkedlist/Singly-linkedlist/Program.cs:361-391 | returns true if and only if `v` was present, deletes exactly its first occurrence, and decrements count only then; on false nothing in the heap changes; removing the only node clears head and tail, and removing the tail makes its predecessor the tail |
| SinglyLinkedList.LinkedList.RemoveAtHead | Singly-linkedlist/Singly-linkedlist/Program.cs:365-373 | a match at the head is removed by advancing head to the second node; the tail is cleared when the list empties and kept otherwise |
| SinglyLinkedList.LinkedList.RemoveAfterHead | Singly-linkedlist/Singly-linkedlist/Program.cs:375-390 | past a non-matching head, the first match is spliced out with head kept, and the predecessor becomes the tail when the match was the tail; or false is returned with nothing changed |
| SinglyLinkedList.LinkedList.FindPredecessor | Singly-linkedlist/Singly-linkedlist/Program.cs:375-388 | the scan stops at the node whose successor is the first `v`, or at the tail when no `v` occurs |
| SinglyLinkedList.LinkedList.UnlinkHead | Singly-linkedlist/Singly-linkedlist/Program.cs:367-370 | head moves to its successor, count drops by one, and tail is cleared exactly when the list becomes empty |
| SinglyLinkedList.LinkedList.UnlinkAfter | Singly-linkedlist/Singly-linkedlist/Program.cs:380-384 | the predecessor's successor is cut out of the chain, and the predecessor becomes the tail exactly when the cut node was the tail |
| SinglyLinkedList.LinkedList.Clear | Singly-linkedlist/Singly-linkedlist/Program.cs:393-398 | contents become empty, count 0, and head and tail null; the list then owns only itself, so it can be used again |
| SinglyLinkedList.LinkedList.ToString | Singly-linkedlist/Singly-linkedlist/Program.cs:400-415 | the text equals the reference rendering of the contents: "[]" when empty, else the braced values head to tail, separated by ", " |
| Scenario.FromAddLast | Singly-linkedlist/Singly-linkedlist/Program.cs:343-359 | a list filled by `AddLast` with `v1..vn` holds `v1..vn`, has count n, and renders them in that order |
| Scenario.FromAddFirst | Singly-linkedlist/Singly-linkedlist/Program.cs:332-341 | a list filled by `AddFirst` with `v1..vn` holds `vn..v1` and renders them in that order |
| Scenario.RemoveTailThenAddLast | Singly-linkedlist/Singly-linkedlist/Program.cs:380-385 | after removing the tail value of [-1, 0, 2], `AddLast(5)` lands after 0 |
| Scenario.ClearThenAddLast | Singly-linkedlist/Singly-linkedlist/Program.cs:393-398 | after `Clear`, `AddLast(v)` gives the one-element list `[v]`, whose head and tail are the same node |
| Scenario.ClearAndInspect | Singly-linkedlist/Singly-linkedlist/Program.cs:393-415 | after `Clear` the text is "[]" and `First` fails with "List is empty" |
| Scenario.Run | Singly-linkedlist/Singly-linkedlist/Program.cs:332-415 | the texts and results of the operations in order: "[{-1}, {0}, {1}, {2}]"; `Remove(1)` true giving "[{-1}, {0}, {2}]"; `Remove(99)` false; tail removal then `AddLast(5)` giving "[{-1}, {0}, {5}]"; `Clear` giving "[]"; and `First` failing |

## Left out

- The commented-out sentinel-node draft (Program.cs:7-274) is dead code and is not compiled.
- `Program.Main` (Program.cs:418-447) is a console demonstration with printing and try/catch. `Scenario.Run` is a separate client, not a model of it.
- C# `Equals` (virtual dispatch, reference or value equality) is modelled as Dafny `==` on `T(==)`.
- `StringBuilder` and .NET's own `ToString` of a `T` are abstracted as the `show` parameter. Node text is `"{" + show(value) + "}"`.
- Releasing nodes after `Clear` or `Remove` is left to garbage collection. `Repr` may keep unlinked nodes; `Valid()` only needs the chain's nodes to be in it.
- `Count` is an `int` in the source and a `nat` here. Overflow after more than 2^31 - 1 insertions is not modelled.
- `Remove`'s single loop is written as a predecessor scan (`FindPredecessor`) followed by a splice (`UnlinkAfter`). The comparisons and their order are those of the source loop.
