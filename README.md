# Intrusive singly-linked list and tail-to-head renderers, in Dafny

This project models the list layer of StarCounterPG and the generic
"render in reverse" algorithms built on it.

The list is a header with `head`, `tail` and `length` over heap cells. Each
cell holds a payload and a `next` link. The payload is either an integer or a
pointer to an identifier node. The renderers walk a container through its
node trait: its iterator and its `appendElement` hook. They produce the
element names joined by `.` in tail-to-head order.

Layout:

- `seqs.dfy` (`Seqs`): reversal, distinctness and the position of an element in a sequence.
- `rendering.dfy` (`Nodes`, `Rendering`): the identifier node, reduced to its name. Also the
  specification `Join` (names separated by `.`) and `ReversedRendering = Join(Reverse(xs))`,
  with lemmas about both.
- `list_tools.dfy` (`ListTools`): `Cell` and `List` classes, the iterator, and the list
  operations. It also holds the list's render hook.
- `std_list_trait.dfy` (`StdListTrait`): the render hook of the standard-list trait.
- `reverse_impl.dfy` (`ReverseImpl`): the three rendering strategies.

How the model is built:

- `List` keeps the real fields `head`, `tail` and `length` and a ghost sequence `cells`, the
  cells from head to tail.
- `Chain()` says that `length == |cells|`, that `head` is the first cell, that each cell links to
  the next and that the last cell links to null. It also says that the cells are distinct, which
  makes the chain acyclic.
- `Valid()` adds that `tail` is the last cell, or null when the list is empty.
- A cell's payload is a `const`, because no operation rewrites it.
- Operations that relink cells are methods with `modifies` clauses. Each one states the new
  `cells` in terms of the old one.
- The iterator is a value, `ListIterator(list, nodePtr)`, because the source copies iterators by
  value (`auto i = current++`, `BasicListIterator j = i`). `++` is `Next()`, and the result is
  assigned back. The ghost `Pos()` gives the cursor's index; the end cursor sits at `|cells|`.
- The payload union that `AssignemntTypeChooser` picks becomes `Payload = IntVal(int32) |
  PtrVal(Ident)`. The unchecked `castNode<Ident>` becomes a `requires` that the payload is
  `PtrVal`, since the cast is undefined for any other payload.
- include/reverse_impl.h holds three rendering strategies, and the model has one method for each.

## Model

| member | source | states |
|---|---|---|
| `ListTools.Cell.constructor` | include/list_tools.h:44-64 | a new cell carries the pushed payload in the variant chosen by its type, and its link is null |
| `ListTools.List.constructor` | include/list_tools.h:67-75 | makeList gives a well-formed empty list: null head, null tail, length 0 |
| `ListTools.GetListSize` | include/list_tools.h:78-81 | on a well-formed chain the reported size is the number of cells; reading it changes nothing |
| `ListTools.List.PushBack` | include/list_tools.h:101-114 | cells become old cells followed by one fresh cell with the payload; tail is the new cell; head moves to it only if the list was empty; length grows by 1; the list stays well-formed |
| `ListTools.List.PushFront` | include/list_tools.h:117-130 | as written: cells become the fresh cell followed by the old cells and length grows by 1. Tail becomes the old head when the list was non-empty and stays null when it was empty. The list is well-formed afterwards if and only if it held exactly one cell before |
| `ListTools.List.PushFrontFixed` | include/list_tools.h:117-130 | corrected push_front: same cell sequence and length, tail is the new cell only for an empty list, and the list stays well-formed for every length |
| `ListTools.PushFrontTailCounterexamples` | include/list_tools.h:123-127 | push_front onto an empty list leaves a non-null head with a null tail; onto a two-cell list it leaves tail at the middle cell; both lists are ill-formed |
| `ListTools.ListIterator.Deref` | include/list_tools.h:137 | dereferencing a non-end cursor yields the cell at its position |
| `ListTools.ListIterator.Equal` | include/list_tools.h:138-139 | two cursors over the same well-formed list are equal exactly when they are at the same position |
| `ListTools.ListIterator.Next` | include/list_tools.h:147-158 | incrementing a non-end cursor moves it to the next position (the end after the last cell) over the same list |
| `ListTools.ListIterator.GetPrevNodePtr` | include/list_tools.h:164-173 | the scan returns the cell just before `node`, or null when `node` is the head; when `node` is absent it returns the last cell (null on an empty list) |
| `ListTools.Begin` | include/list_tools.h:180 | begin is a cursor at position 0, which equals end exactly when the list is empty |
| `ListTools.End` | include/list_tools.h:182 | end is the cursor at the position equal to the number of cells |
| `ListTools.Erase` | include/list_tools.h:185-201 | erase removes exactly the cell under the cursor and keeps the order of the others. Length drops by 1. Head advances only if the head was erased. Tail moves to the predecessor (null for a sole cell) only if the tail was erased. The result is a cursor at the old successor, at the erased position |
| `ListTools.UnlinkKeepsValid` | include/list_tools.h:190-197 | re-linking the predecessor around a cell and patching head, tail and length as erase does yields a well-formed list |
| `ListTools.Clean` | include/list_tools.h:204-212 | erasing from the head until begin equals end leaves a well-formed list with no cells, null head and tail, and length 0 |
| `ListTools.Copy` | include/list_tools.h:216-227 | the copy is a fresh well-formed list of fresh cells with the same length; its i-th payload is the clone function applied to the i-th original payload; the source is only read |
| `ListTools.List.Reverse` | include/list_tools.h:230-246 | in-place relinking turns the cells into their reversal with the same length; the new tail is the old head and the new head the old last cell; the result is well-formed even if the tail field was stale |
| `ListTools.ReverseTwice` | include/list_tools.h:230-246 | reversing twice restores the cell order, head, tail and length |
| `Seqs.ReverseInvolutive` | include/list_tools.h:230-246 | reversing a sequence twice gives it back |
| `ListTools.AppendElement` | include/list_tools.h:288-293 | the list hook requires an identifier payload. It appends "." and the name, or only the name when first, then clears the flag. The old result is a prefix of the new one. When the result is the dot-join of earlier names and the flag is set exactly when there were none, the new result is the dot-join with this name added |
| `StdListTrait.AppendElement` | include/std_list_trait.h:10-15 | with the first flag set the result gains the name with no separator, otherwise "." and the name; the flag is false afterwards; the old result is a prefix of the new one; when the result is the dot-join of earlier names and the flag is set exactly when there were none, the new result is the dot-join with this name added |
| `ReverseImpl.ReverseImpl1` | include/reverse_impl.h:11-31 | the result is the dot-join of the names tail-to-head, "" for an empty list; the body asserts that after the forward pass the stack holds all cells with the tail on top |
| `ReverseImpl.ReverseImpl2` | include/reverse_impl.h:35-55 | the result is the same tail-to-head dot-join; the body asserts that after the forward pass the auxiliary list holds the cells reversed |
| `ReverseImpl.RecursiveReverseImplHelper` | include/reverse_impl.h:57-66 | the helper renders the elements behind the cursor tail-to-head before the element under it. At the end cursor the flag and result pass through. Otherwise the flag ends false, and the result gains a separator unless it was first, then the dot-join of the pending names (`Continued`) |
| `ReverseImpl.ReverseImpl3` | include/reverse_impl.h:70-80 | starting the helper at begin with an empty result yields the same tail-to-head dot-join |
| `ReverseImpl.RenderersAgree` | test/ListTestDriver.cpp:171-176 | the three strategies return the same string on every list of identifiers |
| `ReverseImpl.FiveNamesScenario` | test/ListTestDriver.cpp:17-21 | pushing delak, bolek, patryk, monika, milosz renders as "milosz.monika.patryk.bolek.delak" under all three strategies |
| `Rendering.ReversedRenderingExamples` | test/ListTestDriver.cpp:17-22 | the expected renderings: [""] gives "", ["delak"] gives "delak", ["delak","bolek"] gives "bolek.delak", the five names give "milosz.monika.patryk.bolek.delak", and no elements give "" |
| `Rendering.FiveNamesRendering` | test/ListTestDriver.cpp:21 | the five test names delak, bolek, patryk, monika, milosz render as "milosz.monika.patryk.bolek.delak" |
| `Rendering.JoinLength` | include/reverse_impl.h:24-28 | for n ≥ 1 names the rendering's length is the sum of the name lengths plus n − 1: one separator between neighbours and none elsewhere |
| `Rendering.JoinEnds` | include/reverse_impl.h:24-28 | the rendering starts with the first name and ends with the last one, so a separator leads or trails only when the first or last name is empty |
| `Rendering.JoinCons` | include/reverse_impl.h:47-52 | rendering front to back equals the first name, a separator, and the rendering of the rest |
| `Rendering.ReversedRenderingSnoc` | include/reverse_impl.h:19-28 | the element at the tail is rendered first, followed by a separator and the rendering of the others |
| `Rendering.ReversedRenderingCons` | include/reverse_impl.h:57-66 | the element at the head is rendered last, after a separator |
| `Rendering.AppendAfterPending` | include/reverse_impl.h:62-65 | appending one element after the deferred rendering of the later elements continues that rendering by one element |
| `Rendering.JoinPrefixStep` | include/reverse_impl.h:47-52 | one render-hook step on the i-th element turns the dot-join of the first i names into the dot-join of the first i + 1 |
| `Rendering.JoinSnoc` | include/std_list_trait.h:10-15 | appending one name to a dot-join adds only the name when nothing came before, otherwise a separator and the name |

## Left out

- `makeIdent` and the `IdentExt` destructor (include/list_tools.h:22-28, 84-98) are left out. They only allocate and free wide-character buffers, so an identifier is modelled by its name alone.
- Pointer payloads are always identifier nodes. Other node kinds behind `Node*` are not modelled, because the renderers cast every pointer to an identifier.
- `castNode` is not modelled as a cast. The render hooks require a `PtrVal` payload instead.
- `makeListHeap`, `unique_ptr` and the `ListHolder` guard are left out. They are ownership plumbing, and the guard's only effect is a call to `clean` (modelled by `ListTools.Clean`).
- Freeing memory is not modelled: the `delete` of erased cells, payload ownership, and allocation failure. Erased cells simply leave `cells`.
- The `type` tag (always `T_List`) and the rest of the external `pg/pg_list.h` layout are not part of this model. The test driver's `list_length` is not part of this model either.
- The `std::iterator` base class and `BasicListIterator::operator=` (include/list_tools.h:133-145) are not modelled. Iterators are plain values.
- include/list_node_trait.h holds no logic.
- `ListNodeTrait<List>::begin`, `end` and `reverse` only forward to `Begin`, `End` and `List.Reverse`, so they have no separate members.
- The renderers are modelled for the intrusive list only; the test also calls `reverse_impl_1` on a `std::list<Node*>`. For that container only its render hook is modelled (`StdListTrait.AppendElement`).
- `ListNodeTrait<List>` supplies a `reverse` hook (include/list_tools.h:286), but no strategy in include/reverse_impl.h uses it. No "reverse in place, then render" strategy is modelled; the list reversal itself is `ListTools.List.Reverse`.
- ListTools.Copy: the clone function receives the cell's payload rather than the cell, because a cell's only other field is its link.
- ListTools.List.PushBack: `length` is an unbounded integer, so 32-bit overflow after 2^31 − 1 pushes is not modelled.
- ListTools.ListIterator.Equal: its contract covers only cursors over the same list. The source compares cell addresses only and leaves comparison across lists unspecified.

## Findings

| source | as written | input that shows it | evidently intended | confidence | as-written member | corrected member |
|---|---|---|---|---|---|---|
| include/list_tools.h:123-127 | `push_front` sets `tail` to the old head whenever the list is non-empty and never sets it for an empty list | push_front onto an empty list: head is the new cell, tail stays null. push_front onto [a, b]: tail is a, which is now the middle cell | tail is the new cell when the list was empty and is unchanged otherwise | high; not executed | `ListTools.List.PushFront` | `ListTools.List.PushFrontFixed` |
