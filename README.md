# Singly linked list with a sentinel head

This project models the header-only C++ container `SingleLinkedList<Type>`. It is a
singly linked list that embeds a sentinel `head_` node and keeps a `size_` counter.
The sentinel's `next_node` is the first element. A forward iterator is a pointer to a
node:

- the sentinel is the "before-begin" position;
- a real node is an element;
- `nullptr` is `end()`.

Every mutation of the sequence is one of these:

- a link rewrite at the front (`PushFront`, `PopFront`, `Clear`);
- a link rewrite after a position (`InsertAfter`, `EraseAfter`);
- an exchange of the two chains (`swap`).

Building from a sequence (`Assign`) pushes every value to the front of a temporary list
twice, which restores the original order, and then swaps the result in. The free
functions give a `swap` and the six relational operators, built on `std::equal` and
`std::lexicographical_compare`.

Two files make up the model:

- **`linked_list.dfy`, module `LinkedList`.**
  - `Node` is a class with mutable `value` and `next` fields.
  - `Iterator` is a value wrapping a `Node?`.
  - `SingleLinkedList` is a class whose only link field is the sentinel's `next` and
    whose counter is `size`.
  - The ghost state is `nodes`, the real nodes in chain order, `Contents`, their values,
    and `Repr`, the objects the list owns.
  - The invariant `Valid()` says:
    - the sentinel and `nodes` form one acyclic, duplicate-free chain ending in null;
    - `size == |nodes|`;
    - `Contents` holds the nodes' values;
    - `Repr` is exactly the sentinel, the list object and its nodes.
  - Every method is proved against `Contents`, `nodes` and `Repr`. It states both the
    new sequence and what stays untouched.
- **`relational.dfy`, module `Relational`.**
  - The free comparison operators act on the `Contents` of the two lists, which is what
    `begin()`..`end()` visits. The element `<` is an explicit parameter `lt`.
  - `Less` follows `std::lexicographical_compare` step by step. Its contract proves it
    equal to a declarative lexicographic order, `LexLess`, and `>`, `<=` and `>=` are
    each stated against `LexLess` too.
  - Under a strict total order, `Less` is shown to be irreflexive, transitive and
    trichotomous.
  - The as-written `==`, `!=` and `<=` are modelled beside the intended ones. See `## Findings`.

Memory reclamation (`delete`), exceptions and the C++ type machinery are not modelled.
See `## Left out`.

## Model

| member | source | states |
|---|---|---|
| LinkedList.Node.Sentinel | single-linked-list/single-linked-list.h:13 | a default-constructed node has no successor |
| LinkedList.Node.constructor | single-linked-list/single-linked-list.h:15-18 | the node holds the given value and links to the given successor |
| LinkedList.Iterator.Deref | single-linked-list/single-linked-list.h:88-93 | `*it` yields the value of the referenced node, and end cannot be dereferenced, as the assert at line 90 demands |
| LinkedList.Iterator.Next | single-linked-list/single-linked-list.h:65-71 | `++it` moves the cursor to the referenced node's successor, and end cannot be advanced, as the assert at line 67 demands |
| LinkedList.SingleLinkedList.constructor | single-linked-list/single-linked-list.h:101 | a new list satisfies the invariant, is empty and owns only fresh objects |
| LinkedList.SingleLinkedList.FromValues | single-linked-list/single-linked-list.h:103-106 | the list built from an initializer list holds exactly those values in the same order |
| LinkedList.SingleLinkedList.Copy | single-linked-list/single-linked-list.h:108-113 | the copy holds the source list's values in order, in freshly allocated nodes |
| LinkedList.SingleLinkedList.GetSize | single-linked-list/single-linked-list.h:137-140 | the stored size equals the number of elements and of real nodes |
| LinkedList.SingleLinkedList.IsEmpty | single-linked-list/single-linked-list.h:142-145 | true exactly when there are no elements, which is exactly when the sentinel has no successor |
| LinkedList.SingleLinkedList.SizeCountsReachableNodes | single-linked-list/single-linked-list.h:252-253 | any node chain from the sentinel's successor to null is the list's own chain, so `size_` counts the reachable nodes, and is 0 exactly when the sentinel links to null |
| LinkedList.SingleLinkedList.Begin | single-linked-list/single-linked-list.h:183-186 | `begin()` is the first real node, and equals `end()` exactly when the list is empty |
| LinkedList.SingleLinkedList.End | single-linked-list/single-linked-list.h:188-191 | `end()` is the position after the last element |
| LinkedList.SingleLinkedList.BeforeBegin | single-linked-list/single-linked-list.h:213-216 | `before_begin()` is position 0 of the chain and advancing it gives `begin()` |
| LinkedList.SingleLinkedList.NextIsNextPosition | single-linked-list/single-linked-list.h:65-93 | `++it` moves from position k to position k+1 (end after the last element), and `*it` at element k yields the k-th value |
| LinkedList.SingleLinkedList.PositionsAreDistinct | single-linked-list/single-linked-list.h:45-63 | two iterators over the list compare equal exactly when they denote the same position |
| LinkedList.SingleLinkedList.PushFront | single-linked-list/single-linked-list.h:147-151 | the value is prepended in a fresh node, the size grows by one and the invariant is kept |
| LinkedList.SingleLinkedList.PopFront | single-linked-list/single-linked-list.h:153-162 | on a non-empty list the first node is dropped, the size shrinks by one, and the node leaves the list's ownership |
| LinkedList.SingleLinkedList.Clear | single-linked-list/single-linked-list.h:164-173 | after the unlinking loop the list is empty with size 0, `begin() == end()`, and an empty list is left unchanged |
| LinkedList.SingleLinkedList.InsertAfter | single-linked-list/single-linked-list.h:228-234 | the value is inserted right after `pos` in a fresh node that is returned, every other element keeps its order, and the size grows by one |
| LinkedList.SingleLinkedList.EraseAfter | single-linked-list/single-linked-list.h:236-248 | exactly the successor of `pos` is removed, the others keep their order, the size shrinks by one, and the returned iterator is the new successor of `pos` |
| LinkedList.SingleLinkedList.Swap | single-linked-list/single-linked-list.h:131-135 | the two lists exchange their chains, contents, sizes and owned nodes, each keeps its own sentinel, and both stay valid |
| LinkedList.SingleLinkedList.CopyAssign | single-linked-list/single-linked-list.h:120-129 | after assignment the list holds `rhs`'s values in fresh nodes and `rhs` is unchanged, while self-assignment changes nothing |
| LinkedList.SingleLinkedList.Assign | single-linked-list/single-linked-list.h:255-271 | the two front-pushing passes together with the final swap leave the list holding the values in their original order |
| LinkedList.SingleLinkedList.AssignFrom | single-linked-list/single-linked-list.h:255-271 | assigning from another list's iterator range leaves this list holding that list's values in order, in fresh nodes |
| LinkedList.ReversedValues | single-linked-list/single-linked-list.h:261-264 | pushing each value to the front of an empty list yields the values reversed |
| LinkedList.ReversedCopy | single-linked-list/single-linked-list.h:266-269 | pushing each element of a list to the front of an empty list yields its contents reversed |
| LinkedList.PushEachFront | single-linked-list/single-linked-list.h:266-269 | the second pass prepends the reverse of the source's contents to the target and leaves the source untouched |
| LinkedList.ReverseInvolution | single-linked-list/single-linked-list.h:258-270 | reversing twice gives back the original sequence, which is why the two passes of `Assign` preserve order |
| LinkedList.Swap | single-linked-list/single-linked-list.h:274-278 | the free `swap` does what the member does: the two lists exchange chains, contents, sizes and owned nodes, no node is created or copied, and they still own disjoint nodes afterwards |
| Relational.Less | single-linked-list/single-linked-list.h:293-297 | the step-by-step `lexicographical_compare` holds exactly when the first non-equivalent pair favours the left operand, or the left is a proper equivalent prefix of the right, for every element relation |
| Relational.LessIrreflexive | single-linked-list/single-linked-list.h:293-297 | no list is `<` itself under an irreflexive element order |
| Relational.LessTransitive | single-linked-list/single-linked-list.h:293-297 | `<` on lists is transitive under a strict total element order |
| Relational.LessTrichotomy | single-linked-list/single-linked-list.h:293-297 | under a strict total element order exactly one of `a < b`, `a == b`, `b < a` holds |
| Relational.Greater | single-linked-list/single-linked-list.h:306-310 | `a > b` holds exactly when `b` is lexicographically less than `a` |
| Relational.GreaterOrEqual | single-linked-list/single-linked-list.h:312-317 | `a >= b` holds exactly when `a` is not lexicographically less than `b` |
| Relational.GreaterOrEqualIsGreaterOrEqual | single-linked-list/single-linked-list.h:312-317 | `!(a < b)` is exactly `a > b` or `a == b` under a strict total element order |
| Relational.EqualAsWritten | single-linked-list/single-linked-list.h:280-284 | three-iterator `std::equal` holds exactly when `a` is no longer than `b` and equals the first `|a|` elements of `b`; it is defined on every input except those where it would read past the end of `b` |
| Relational.EqualAsWrittenOnEqualLengths | single-linked-list/single-linked-list.h:280-284 | on lists of equal length the as-written `==` is true equality |
| Relational.EqualAsWrittenCounterexample | single-linked-list/single-linked-list.h:280-291 | the as-written `==` calls `{1, 2}` equal to `{1, 2, 3}` and the as-written `!=` calls them not different, while the intended operators disagree on both |
| Relational.Equal | single-linked-list/single-linked-list.h:280-284 | the intended `==` holds exactly when the two element sequences are equal |
| Relational.NotEqualAsWritten | single-linked-list/single-linked-list.h:286-291 | the as-written `!=`, the negation of the as-written `==`, holds exactly when `lhs` is longer than `rhs` or differs from its start |
| Relational.NotEqual | single-linked-list/single-linked-list.h:286-291 | `!=` over the intended `==` holds exactly when the two element sequences differ |
| Relational.NotEqualIsLessOrGreater | single-linked-list/single-linked-list.h:286-291 | `!=` holds exactly when the sequences differ, which is exactly when one is `<` the other, matching the commented-out alternative |
| Relational.LessOrEqualAsWritten | single-linked-list/single-linked-list.h:299-304 | the as-written `<=`, `!(rhs > lhs)`, holds exactly when `lhs` is not lexicographically less than `rhs` |
| Relational.LessOrEqual | single-linked-list/single-linked-list.h:299-304 | the intended `<=`, `!(lhs > rhs)`, holds exactly when `rhs` is not lexicographically less than `lhs` |
| Relational.LessOrEqualAsWrittenIsGreaterOrEqual | single-linked-list/single-linked-list.h:299-304 | the as-written `<=`, `!(rhs > lhs)`, is exactly `lhs >= rhs` |
| Relational.LessOrEqualAsWrittenCounterexample | single-linked-list/single-linked-list.h:299-304 | `{1} < {2}`, yet the as-written `{1} <= {2}` is false while the intended one is true |
| Relational.LessOrEqualIsLessOrEqual | single-linked-list/single-linked-list.h:299-304 | the intended `<=`, `!(lhs > rhs)`, is exactly `lhs < rhs` or `lhs == rhs`, as the commented-out alternative says |
| Relational.ComparisonExamples | single-linked-list/single-linked-list.h:280-317 | on integer lists: equal lists compare equal, a proper prefix is less, the first differing element decides `>`, and the empty list is less than a non-empty one |

## Left out

- Memory reclamation: `delete` in `PopFront`, `Clear` and `EraseAfter`, and the destructor (lines 115-118), are not modelled. Dafny is garbage-collected. An unlinked node simply leaves `Repr`.
- Allocation failure and exception safety of `new Node` and of `Assign`'s temporaries are not modelled.
- The const and non-const iterator split is not modelled: `ConstIterator`, the converting copy constructor, the iterator trait typedefs and `const_cast` in `cbefore_begin`. One `Iterator` stands for both.
- `cbegin`, `cend`, `cbefore_begin` and the const overloads of `begin`, `end` and `before_begin` are not modelled. They return the same node as the modelled `Begin`, `End` and `BeforeBegin`.
- `operator->` (lines 81-86) is not modelled; it reaches the same field as `Deref`. Post-increment (lines 73-79) is a copy of the iterator followed by `Next`.
- Writing an element through `*it` is not modelled. `Deref` only reads, and no model operation assigns through an iterator.
- A default-constructed iterator is not modelled separately. It holds a null node, which is `Iterator(null)`, i.e. end.
- `size_t` is modelled as an unbounded `nat`. A list would need more than 2^64 nodes to wrap the counter.
- LinkedList.SingleLinkedList.InsertAfter: requires `pos` to be a position of this list. The source asserts only that `pos` is non-null, but the `size_` update is right only for this list's own nodes.
- LinkedList.SingleLinkedList.EraseAfter: requires `pos` to have a successor. The source asserts only a non-empty list and a non-null `pos`, and dereferences the successor unconditionally.
- LinkedList.SingleLinkedList.Swap: requires the two lists to be the same object or to own disjoint nodes. Every list owns its own nodes, so this always holds in the source.
- LinkedList.SingleLinkedList.CopyAssign: requires `rhs` to be this list or to own nodes disjoint from it. Every list owns its own nodes, so this always holds in the source.
- LinkedList.SingleLinkedList.AssignFrom: requires disjoint ownership. Its only caller is the copy constructor, whose list is fresh.
- Relational operators work on `Contents`, not by walking iterators. Element `<` is the parameter `lt`, and element `==` is Dafny equality. Ordering lemmas assume `lt` is a strict total order, as the standard algorithms expect.
- Relational.EqualAsWritten: requires `lhs` to be no longer than `rhs`, or to differ from `rhs` within `rhs`'s length. On the remaining inputs, where `rhs` is shorter and equals the start of `lhs`, the three-iterator `std::equal` reads past the end of `rhs`, which is undefined behaviour. `Relational.NotEqualAsWritten` has the same requirement for the same reason.
- Relational.NotEqual is built on the intended `Equal`. The as-written `!=` is `Relational.NotEqualAsWritten`.
- `Assign` declares `tmp` before `reversed`. The model allocates them in the other order, which changes nothing observable.

## Findings

| source | as written | input that shows it | evidently intended | confidence | as-written member | corrected member |
|---|---|---|---|---|---|---|
| single-linked-list/single-linked-list.h:283 | `==` is the three-iterator `std::equal(lhs.begin(), lhs.end(), rhs.begin())`, which never looks at the length of `rhs` | `{1, 2} == {1, 2, 3}` yields true, so `{1, 2} != {1, 2, 3}` (line 290) yields false; `{1, 2, 3} == {1, 2}` reads past the end of `rhs` | two lists are equal exactly when they have the same length and the same elements | not executed | Relational.EqualAsWrittenCounterexample | Relational.Equal |
| single-linked-list/single-linked-list.h:303 | `<=` returns `!(rhs > lhs)`, which is `lhs >= rhs` | `{1} <= {2}` yields false although `{1} < {2}` | `!(lhs > rhs)`, i.e. `lhs < rhs` or `lhs == rhs` | not executed | Relational.LessOrEqualAsWrittenCounterexample | Relational.LessOrEqualIsLessOrEqual |
