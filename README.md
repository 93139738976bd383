# Singly linked list (linked-list.rb), modelled and verified in Dafny

`linked-list.rb` is a teaching exercise. It builds a singly linked list from
two Ruby classes:

- `LinkedList` holds a reference `first` to the head node.
- `Node` holds a `value` and a mutable `next` reference.

The list supports `prepend`, `append`, `find`, `has_value`, `insert_after`,
`remove`, `length` and `to_s`:

- `prepend` only reassigns `@first`.
- `find`, `remove`, `length` and `to_s` walk the chain with a
  `while current` loop.
- `append` walks with `while current.next != nil` to the last node.
- `has_value` and `insert_after` walk the chain only through `find`.
- `remove` also reassigns `@first` when the head matches. `append`,
  `insert_after` and `remove` relink `next` in place.

The model has the same imperative form, in three modules:

- `ListSpec` (`list_spec.dfy`) states what each operation means on the
  sequence of values the list holds, in traversal order: the index of the
  first occurrence, insertion after it, removal of it, `remove` as written,
  and the ", "-joined rendering. It also proves the properties of these
  functions: multiset effects, the two branches of `remove`, and how
  rendering changes under `append` and `prepend`.
- `LinkedLists` (`linked_list.dfy`) holds the classes `Node` and
  `LinkedList`. `LinkedList` has the real field `first` and three ghost
  fields:
  - `nodes`, the chain in traversal order;
  - `Contents`, the values;
  - `Repr`, its footprint.

  The invariant `Valid()` ties `first`, every `next` link and every value to
  these ghost fields. Lemma `ChainIsAcyclic` shows that such a chain holds
  no node twice. Each Ruby method becomes a Dafny method. Where the Ruby
  method has a loop, the Dafny method has the same cursor loop with its
  invariants. The postconditions are stated as follows (the mutating
  methods state both the new values and the new node chain):
  - `InsertAfter`, `Remove` and `ToString` are stated through the
    `ListSpec` functions.
  - `Prepend` and `Append` are stated directly on the sequences.
  - `Find`, `HasValue` and `Length` are stated through `IndexOf`,
    membership and the number of values.

  Where the Ruby code would raise on `nil`, the model has a precondition.
- `Scenario` (`scenario.dfy`) starts from the usage at the end of the
  file (lines 139-141). A list is built from "bear", then "cat" and "dog"
  are appended. The file itself stops there, at a debugger breakpoint.
  The model adds two things the file does not do:
  - It renders the built list and takes its length: "bear, cat, dog" and 3.
  - It runs extra steps on that list: `remove("cat")`,
    `insert_after("bear", "fox")` and `remove("zebra")` of an absent value.

Values are of any type with equality (`T(==)`). Ruby's per-value `to_s`
inside `Array#join` becomes a parameter `show: T -> string`.

Where the code differs from what one would expect of a linked list, the
model follows the code:

- There is no empty constructor: `LinkedList.new` takes a value and builds
  one node.
- `append` and `remove` dereference `@first` without a check, so they
  require a non-empty list.
- When the head holds the target, `remove` drops the head and then keeps
  scanning. It therefore also unlinks the next occurrence of the target.
  It cannot complete when the new head holds the target too.
- `insert_after` returns nil (`null`) when the target is absent, and the
  list itself otherwise.

## Model

| member | source | states |
|---|---|---|
| LinkedLists.Node.constructor | linked-list.rb:133-136 | a new node holds the given value and the given successor |
| LinkedLists.ChainIsAcyclic | linked-list.rb:129-137 | a chain in which each node's `next` is the following node and the last `next` is nil has no node twice |
| LinkedLists.LinkedList.constructor | linked-list.rb:32-34 | a new list is valid and holds exactly one value, in one fresh node that is `first` |
| LinkedLists.LinkedList.Prepend | linked-list.rb:37-40 | the values become `[v] + old`; the new head is a fresh node followed by all the old nodes, which are not modified; the list itself is returned |
| LinkedLists.LinkedList.Append | linked-list.rb:43-50 | on a non-empty list the values become `old + [v]`, one longer; the walk reaches the last node, which is the only node modified; the old nodes keep their order and the fresh node is last; the list itself is returned |
| LinkedLists.LinkedList.Find | linked-list.rb:54-63 | returns null exactly when no node holds the target; otherwise it returns the node at the first index holding the target, and that node's value equals the target; nothing is modified |
| LinkedLists.LinkedList.HasValue | linked-list.rb:66-71 | true exactly when the target occurs among the values, so it agrees with `Find` returning a node |
| LinkedLists.LinkedList.InsertAfter | linked-list.rb:75-82 | returns null exactly when the target is absent, and then the nodes are unchanged; otherwise it returns the list and a fresh node holding `v` sits right after the first node holding the target, in front of that node's old successor |
| LinkedLists.LinkedList.LinkAfter | linked-list.rb:80 | linking a fresh node after position `i` splices it into both the node chain and the values at `i + 1`, and the list stays valid |
| LinkedLists.LinkedList.Remove | linked-list.rb:86-102 | on a non-empty list where a matching head is not followed by another match, the values become `ListSpec.Remove(old, t)`; the node chain loses exactly the node at the first match (taken over the nodes after the head when the head matched and was dropped), or nothing when there is no match; the list stays valid and the list itself is returned |
| LinkedLists.LinkedList.DropHead | linked-list.rb:88 | `@first = @first.next`: the head node and its value leave the chain and the list stays valid |
| LinkedLists.LinkedList.UnlinkFirst | linked-list.rb:91-101 | on a list whose head does not hold the target, the scan unlinks exactly the node at the first match from the chain and its value from the values, keeping the rest in order; with no match the chain and values are unchanged |
| LinkedLists.LinkedList.UnlinkAfter | linked-list.rb:95 | pointing the predecessor past the node at position `k` takes that node out of the chain and its value out of the values, and the list stays valid |
| LinkedLists.LinkedList.Length | linked-list.rb:105-113 | the count equals the number of values (0 when `first` is nil) |
| LinkedLists.LinkedList.ToString | linked-list.rb:116-124 | the result is the values in list order, each shown, joined with ", " |
| LinkedLists.LinkedList.RemoveFirstMatch | linked-list.rb:86-102 | the intended `remove`: on any valid list, including an empty one and one whose two leading values both match, exactly the node at the first occurrence of the target leaves the chain and its value leaves the values; the list itself is returned |
| ListSpec.IndexOf | linked-list.rb:54-63 | the index is at most the length, is below it exactly when the target occurs, holds the target there, and no earlier position holds it |
| ListSpec.InsertAfter | linked-list.rb:75-82 | with the target absent the values are unchanged; otherwise `v` is inserted right after the first occurrence and everything before and after is kept |
| ListSpec.RemoveFirst | linked-list.rb:91-100 | with the target absent the values are unchanged; otherwise exactly the first occurrence is dropped and the rest keep their order |
| ListSpec.RemoveFirstMultiset | linked-list.rb:91-100 | removing the first occurrence takes exactly one copy of the target out of the multiset of values, and nothing else |
| ListSpec.Removable | linked-list.rb:87-95 | the lists on which `remove(t)` completes are exactly those that are non-empty (line 87 reads `@first.value`) and in which, when the head holds `t`, the first later occurrence of `t` is not the new head (line 95 would call `next=` on a nil `prev`) |
| ListSpec.Remove | linked-list.rb:86-102 | `remove` as written takes one copy of the target out of the multiset when the head does not match, and two copies (as far as there are) when it does |
| ListSpec.RemoveHeadMiss | linked-list.rb:91-101 | when the head does not hold the target, `remove` drops exactly the first occurrence and the list is one shorter, or leaves the list unchanged when the target is absent |
| ListSpec.RemoveHeadMatch | linked-list.rb:87-100 | when the head holds the target, `remove` equals removing the first occurrence twice; with no later match only the head goes; the length drops by 2 or by 1 accordingly |
| ListSpec.RemoveSingleOccurrence | linked-list.rb:86-102 | removing a value that occurs once leaves a list without it and exactly one shorter |
| ListSpec.HeadMatchDropsLaterMatch | linked-list.rb:87-100 | on "bear, cat, bear", `remove("bear")` leaves only "cat", while removing the first occurrence would leave "cat, bear" |
| ListSpec.DoubleHeadMatchNotRemovable | linked-list.rb:87-95 | "bear, bear" is outside the lists on which `remove("bear")` completes |
| ListSpec.Join | linked-list.rb:123 | `Array#join(sep)`: no parts give "", and otherwise the result starts with the first part and ends with the last part |
| ListSpec.Render | linked-list.rb:116-124 | what `to_s` returns for a list of values: "" for an empty list, and otherwise a string that starts with the first value's text and ends with the last value's text |
| ListSpec.JoinSnoc | linked-list.rb:123 | joining one more part adds the separator and that part at the end |
| ListSpec.RenderAppend | linked-list.rb:116-124 | after `append(v)` the rendering is the old one, then ", ", then `v`; or `v` alone when the list was empty |
| ListSpec.RenderPrepend | linked-list.rb:116-124 | after `prepend(v)` the rendering is `v`, then ", ", then the old one; or `v` alone when the list was empty |
| Scenario.Build | linked-list.rb:139-141 | `LinkedList.new('bear')` followed by appending "cat" and "dog" gives a valid list holding "bear", "cat", "dog" |
| Scenario.Demo | linked-list.rb:139-141 | the list built there (the file itself does not render it) renders as "bear, cat, dog" and has length 3 |
| Scenario.RemoveCat | linked-list.rb:86-102 | an extra scenario: `remove("cat")` on "bear, cat, dog" leaves "bear, dog" |
| Scenario.InsertFox | linked-list.rb:75-82 | an extra scenario: `insert_after("bear", "fox")` on "bear, dog" gives "bear, fox, dog" |
| Scenario.RemoveZebra | linked-list.rb:86-102 | an extra scenario: `remove("zebra")` on "bear, fox, dog" leaves it unchanged |
| Scenario.RemoveStep | linked-list.rb:86-102 | an extra step on the list built at lines 139-141: `remove("cat")` leaves "bear", "dog" and no new objects |
| Scenario.InsertStep | linked-list.rb:75-82 | an extra step: `insert_after("bear", "fox")` on "bear", "dog" gives "bear", "fox", "dog" |
| Scenario.KeepStep | linked-list.rb:86-102 | an extra step: `remove("zebra")` on "bear", "fox", "dog" changes no value |
| Scenario.FollowUp | linked-list.rb:75-102 | extra steps, not in the file, on the list built at lines 139-141: after `remove("cat")`, `insert_after("bear", "fox")` and `remove("zebra")` the renderings are "bear, dog", "bear, fox, dog" and "bear, fox, dog" |

## Left out

- `require 'pry'` and `binding.pry` (lines 26 and 144) are debugger plumbing with no behaviour, so they are not modelled.
- Ruby's dynamic `==` is the equality of a type `T(==)`. The per-value `to_s` that `Array#join` calls is the parameter `show`. Ruby's duck-typed conversion is not modelled.
- A NoMethodError raised on `nil` is modelled as a precondition. This covers `append` and `remove` on an emptied list, and `remove` when both leading nodes hold the target. Exceptions themselves are not modelled.
- `attr_reader :first` and the `attr_accessor`s of `Node` are plain field reads in the model. A caller writing a node's `value` or `next` through a node returned by `find` is not modelled, because such a write would break the list invariant.
- Releasing unlinked nodes is left to the garbage collector, as in Ruby. `Repr` may keep nodes that `remove` unlinked. The model proves that those nodes leave the chain `nodes`, not that they are freed.
- LinkedLists.LinkedList.InsertAfter: its `modifies` frame is the whole footprint `Repr`. It does not state that only the found node's `next` changes. That narrower frame is stated on `LinkAfter`, which does the relinking. The resulting node chain is stated exactly.
- LinkedLists.LinkedList.Remove: its `modifies` frame is the whole footprint `Repr`. It does not state that only `first` and the predecessor's `next` change. The narrower frames are stated on `DropHead` and `UnlinkAfter`. The resulting node chain is stated exactly.
- LinkedLists.LinkedList.UnlinkFirst: its `modifies` frame is the whole footprint `Repr`, for the same reason as for `Remove`. The resulting node chain is stated exactly.

## Findings

| source | as written | input that shows it | evidently intended | confidence | as-written member | corrected member |
|---|---|---|---|---|---|---|
| linked-list.rb:87-100 | after removing a matching head, the scan runs over the rest of the list and also unlinks the next node holding the target | `remove('bear')` on bear, cat, bear leaves only cat | remove a single node: the first one holding the target, leaving cat, bear | not executed | ListSpec.HeadMatchDropsLaterMatch | LinkedLists.LinkedList.RemoveFirstMatch |
| linked-list.rb:87-95 | after removing a matching head, `prev` is still nil; when the new head also holds the target, `prev.next` is called on nil and raises | `remove('bear')` on bear, bear | remove the first bear, leaving bear | not executed | ListSpec.DoubleHeadMatchNotRemovable | LinkedLists.LinkedList.RemoveFirstMatch |
