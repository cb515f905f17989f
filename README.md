# Node tree of the low-code designer, in Dafny

This project models the `Node` class of the designer's document model
(`packages/designer/src/document/node/node.ts`): the tree of component nodes a
low-code page is built from. It covers:

- the parent link and the ordered children and slots of each node;
- depth (`zLevel`), index and siblings, containment and relative position;
- the exclusive condition groups that sibling nodes share;
- re-parenting with its drop hooks, slot registration, removal and purging;
- the built-in extra props, status flags and export to a node schema.

The modules are:

- `Values` and `Sequences` (`values.dfy`): prop values, `undefined` on a missing
  key, and the `indexOf`/`splice` list operations the node uses.
- `NodeRecords` (`node_record.dfy`): the per-node record and its classification
  predicates, the condition/loop directives, the built-in extras, the status
  flags and the normalisation of initial children.
- `TreePosition` (`tree_position.dfy`): acyclicity of the parent relation,
  `zLevel`, `getZLevelTop`, `contains`, `comparePosition` and the chain of nodes
  a drop hook bubbles through.
- `NodeStore` (`node_store.dfy`): the tree invariant `Wf`, sibling lookup, the
  group join rule, and the store-level effect of unlinking, re-parenting and
  removal.
- `SchemaExport` (`schema_export.dfy`): `export(stage, options)`.
- `Documents` (`document.dfy`): a `Document` class holding every node record by
  id. Each state-changing node method is a method of the document that takes
  the node's id (`this`) first and is proved against a specification function of
  `NodeStore`.

The drop hooks (`didDropIn`, `didDropOut`) are recorded in a ghost trace. It
holds one entry per node the hook bubbles through, whether or not that node's
metadata registers a callback.

Where the code and its comments disagree, the model follows the code:

- `hasLoop` is true for any array, even an empty one. Its comment asks for more
  than one element.
- `setConditionGroup` called with an ExclusiveGroup object changes nothing. The
  `!isExclusiveGroup(grp)` test skips the only branch that assigns the group.
- `remove()` of a node whose parent is a Leaf does nothing beyond `removeSlot`.
  A Leaf has no children collection, so `children?.internalDelete` is skipped.

## Model

| member | source | states |
|---|---|---|
| Values.Lookup | packages/designer/src/document/node/node.ts:741 | definition of a JavaScript property read: a missing key reads as `undefined`, a present one as its value |
| Values.LeafContent | packages/designer/src/document/node/node.ts:376-379 | a Leaf keeps text or an expression as its content and anything else becomes `''` |
| Values.LeafContentIdempotent | packages/designer/src/document/node/node.ts:376-379 | normalising Leaf content twice is normalising it once |
| Sequences.IndexOf | packages/designer/src/document/node/node.ts:1031 | `indexOf` is -1 exactly when the node is absent, otherwise the position of its first occurrence |
| Sequences.ElementAt | packages/designer/src/document/node/node.ts:896 | definition of `children.get(i)`: the element at `i` exactly when `i` is in range |
| Sequences.RemoveFirst | packages/designer/src/document/node/node.ts:1031-1038 | the splice leaves a list without the node unchanged and otherwise shortens it by one |
| Sequences.RemoveFirstOrder | packages/designer/src/document/node/node.ts:1038 | elements before the removed one keep their position and those after it move up by one |
| Sequences.RemoveFirstCount | packages/designer/src/document/node/node.ts:1038 | exactly one occurrence of the node is gone and nothing else |
| Sequences.RemoveFirstNoDup | packages/designer/src/document/node/node.ts:1058-1063 | on a duplicate-free list the node is gone entirely, every other element stays, and no duplicate appears |
| NodeRecords.WithStatus | packages/designer/src/document/node/node.ts:1226-1227 | writing a status field sets that flag and leaves the other two |
| NodeRecords.WithStatusSame | packages/designer/src/document/node/node.ts:1226-1228 | writing the value a flag already has leaves the status unchanged, so skipping the write is sound |
| NodeRecords.StatusFieldNamed | packages/designer/src/document/node/node.ts:1222 | definition of `status.hasOwnProperty(field)`: exactly `locking`, `pseudo` and `inPlaceEditing` name a flag |
| NodeRecords.GetStatus | packages/designer/src/document/node/node.ts:1210-1216 | definition of `getStatus(field)`: a named status field yields its flag; no field or an unknown one yields the whole status |
| NodeRecords.SetThenGetStatus | packages/designer/src/document/node/node.ts:1210-1229 | reading a flag after `setStatus` gives the value written, and the other flags read as before |
| NodeRecords.Classification | packages/designer/src/document/node/node.ts:486-537 | leaf and parental partition the nodes; slots, pages and components are parental; pages and components are roots; a node is non-empty exactly when it is parental with children |
| NodeRecords.HasConditionCases | packages/designer/src/document/node/node.ts:740-743 | a missing or literal-`true` condition is no condition; `false` or an expression is one |
| NodeRecords.HasLoopCases | packages/designer/src/document/node/node.ts:749-762 | a loop exists exactly when the `loop` extra is an array (even empty) or an expression |
| NodeRecords.WithBuiltins | packages/designer/src/document/node/node.ts:411-418 | seeding adds exactly the six built-in keys and keeps every value already present |
| NodeRecords.WithBuiltinsDefaults | packages/designer/src/document/node/node.ts:411-418 | each missing built-in key gets its default: hidden false, title '', isLocked false, condition true, conditionGroup '', loop undefined |
| NodeRecords.WithBuiltinsIdempotent | packages/designer/src/document/node/node.ts:411-418 | seeding twice is seeding once |
| NodeRecords.SeededDirectives | packages/designer/src/document/node/node.ts:411-418 | the seeded defaults give neither a condition nor a loop, and seeding leaves a node's own directives as they were |
| NodeRecords.InitialChildrenOf | packages/designer/src/document/node/node.ts:450-468 | an array is kept, a single child is wrapped; with no children the metadata list, the callback result (or `[]` when it is falsy) or `[]` is used |
| NodeRecords.InitialChildrenIdempotent | packages/designer/src/document/node/node.ts:450-468 | normalising an already normalised list gives it back whatever the metadata |
| TreePosition.AncestorDepth | packages/designer/src/document/node/node.ts:271-276 | `zLevel` counts the parent steps: exactly that many exist, they reach a parentless node, and each lowers the depth by one |
| TreePosition.StrictAncestorShallower | packages/designer/src/document/node/node.ts:271-276 | a strict ancestor is in the document and has a smaller `zLevel` |
| TreePosition.AncestorAtDepthSpec | packages/designer/src/document/node/node.ts:1437-1450 | the ancestor at depth `d` exists exactly for `0 <= d <= zLevel`, is the node at its own depth, has depth `d`, and is a strict ancestor above it |
| TreePosition.GetZLevelTop | packages/designer/src/document/node/node.ts:1437-1450 | the loop returns the ancestor at the requested depth, or nothing out of range |
| TreePosition.AtDepthIsAncestor | packages/designer/src/document/node/node.ts:1437-1450 | the ancestor of a deeper node at `a`'s depth is `a` exactly when `a` is its strict ancestor |
| TreePosition.ContainsMeaning | packages/designer/src/document/node/node.ts:1458-1473 | `contains(a, b)` holds exactly when `a` is `b`, or `a` is parental and a strict ancestor of `b` |
| TreePosition.ContainsChain | packages/designer/src/document/node/node.ts:1458-1473 | a parental grandparent contains its grandchild, and the grandchild does not contain it |
| TreePosition.ComparePositionMeaning | packages/designer/src/document/node/node.ts:1485-1510 | TheSame exactly for one node, Contains exactly for a strict ancestor, ContainedBy exactly for a strict descendant, BeforeOrAfter at equal depth |
| TreePosition.ComparePositionSwap | packages/designer/src/document/node/node.ts:1485-1510 | swapping the arguments swaps Contains and ContainedBy and keeps the rest |
| TreePosition.DropChainSpec | packages/designer/src/document/node/node.ts:544-564 | a drop hook visits `zLevel + 1` nodes, the k-th being k parent steps up, exactly the node and its strict ancestors |
| TreePosition.DropChainFrame | packages/designer/src/document/node/node.ts:550-552 | the bubbling path depends only on the parent links along it |
| TreePosition.DropChainOutside | packages/designer/src/document/node/node.ts:583-600 | re-parenting a node leaves the bubbling path from any node outside its subtree unchanged |
| TreePosition.ReparentKeepsAcyclic | packages/designer/src/document/node/node.ts:586-588 | a new parent from outside the node's subtree keeps the parent relation acyclic |
| NodeStore.SingleOwner | packages/designer/src/document/node/node.ts:575-582 | under the tree invariant a node is listed by one owner only, its parent, and never as both child and slot |
| NodeStore.Index | packages/designer/src/document/node/node.ts:875-880 | `index` is -1 without a parent and never below -1 |
| NodeStore.IndexMeaning | packages/designer/src/document/node/node.ts:875-880 | a non-negative index is the node's position among its parent's children, and a listed node has one |
| NodeStore.IndexOfListed | packages/designer/src/document/node/node.ts:875-880 | the k-th child has index k |
| NodeStore.SiblingsAdjacent | packages/designer/src/document/node/node.ts:885-914 | `prevSibling(n)` is `s` exactly when `nextSibling(s)` is `n` |
| NodeStore.SiblingsShareParent | packages/designer/src/document/node/node.ts:885-914 | a sibling is another node with the same parent |
| NodeStore.ResolveGroup | packages/designer/src/document/node/node.ts:712-715 | a group found among the siblings exists and carries the requested name |
| NodeStore.LeaveGroupOk | packages/designer/src/document/node/node.ts:705-708 | leaving a group keeps the group bookkeeping and leaves the node in no group's members |
| NodeStore.AllocateOk | packages/designer/src/document/node/node.ts:717 | a new group gets a fresh id and starts empty with the given name |
| NodeStore.EnterGroupOk | packages/designer/src/document/node/node.ts:725-726 | joining adds exactly the node to the group's members and keeps the bookkeeping |
| NodeStore.SetConditionGroupKeeps | packages/designer/src/document/node/node.ts:701-728 | `setConditionGroup` keeps the tree and the groups consistent and touches only the node's group and its `conditionGroup` extra |
| NodeStore.DetachKeeps | packages/designer/src/document/node/node.ts:703-710 | detaching keeps the invariants and removes exactly the `conditionGroup` extra |
| NodeStore.JoinKeeps | packages/designer/src/document/node/node.ts:711-727 | joining by name keeps the invariants and touches only the node's group fields |
| NodeStore.SetConditionGroupMeaning | packages/designer/src/document/node/node.ts:701-728 | a group object changes nothing; no name or an empty one leaves the node in no group without the extra; a name joins a group of that name |
| NodeStore.DetachMeaning | packages/designer/src/document/node/node.ts:703-710 | after detaching the node has no group, no extra, and no group lists it |
| NodeStore.JoinResult | packages/designer/src/document/node/node.ts:711-727 | joining lands in the previous sibling's group of that name, else the next sibling's, else a fresh group holding the node alone |
| NodeStore.MoveToGroup | packages/designer/src/document/node/node.ts:720-726 | after leaving its old group and entering `g`, the node is in `g`; `g` keeps its name, and a group that was empty now holds the node alone |
| NodeStore.RecoverKeeps | packages/designer/src/document/node/node.ts:590-597 | recovering the initial group keeps the invariants and touches only the node's group fields |
| NodeStore.RecoverGroupMeaning | packages/designer/src/document/node/node.ts:590-597 | a node in no group with a recorded name ends in a group of that name; otherwise nothing changes |
| NodeStore.UnlinkKeeps | packages/designer/src/document/node/node.ts:575-582 | unlinking keeps the tree invariant, keeps every parent link, and leaves the node listed nowhere |
| NodeStore.UnlinkFrame | packages/designer/src/document/node/node.ts:575-582 | only the old parent changes, losing the node from its slots (a slot node) or its children (otherwise) |
| NodeStore.UnlinkIdempotent | packages/designer/src/document/node/node.ts:575-582 | unlinking twice is unlinking once |
| NodeStore.UnlinkFromChildren | packages/designer/src/document/node/node.ts:580 | for a node not among its parent's slots, unlinking is splicing it out of the parent's children |
| NodeStore.LinkKeeps | packages/designer/src/document/node/node.ts:586-588 | linking an unlisted node under a node outside its subtree keeps the tree and the groups consistent |
| NodeStore.UnlinkKeepsChain | packages/designer/src/document/node/node.ts:583-600 | unlinking leaves the bubbling path above any node unchanged |
| NodeStore.AttachChainKept | packages/designer/src/document/node/node.ts:590-600 | linking and recovering the group leave the `didDropIn` path from the new parent unchanged |
| NodeStore.AttachKeeps | packages/designer/src/document/node/node.ts:586-601 | the attach half sets the link and otherwise touches only the node's group fields, keeping the invariants |
| NodeStore.SetParentKeeps | packages/designer/src/document/node/node.ts:570-603 | `internalSetParent` keeps the tree and the groups consistent, sets the new parent (or keeps the old link when detaching), and leaves the node listed nowhere |
| NodeStore.SetParentFrame | packages/designer/src/document/node/node.ts:570-603 | re-parenting leaves every node other than the node and its old parent as it was |
| NodeStore.SetParentKeepsNames | packages/designer/src/document/node/node.ts:570-603 | re-parenting changes no node's kind and no slot's registered name |
| NodeStore.DropSlotKeeps | packages/designer/src/document/node/node.ts:1058-1063 | splicing one slot out of an owner's slots keeps the tree and the groups consistent |
| NodeStore.DropChildKeeps | packages/designer/src/document/node/node.ts:580 | splicing one child out keeps the tree and the groups consistent |
| NodeStore.AppendSlotKeepsWf | packages/designer/src/document/node/node.ts:1083 | pushing an unlisted slot already linked to the owner keeps the tree invariant |
| NodeStore.RemoveNamed | packages/designer/src/document/node/node.ts:1080 | the remaining slots are exactly those not registered under the name, with no duplicates introduced |
| NodeStore.RemoveNamedAbsent | packages/designer/src/document/node/node.ts:1078-1081 | without a slot of that name nothing is removed |
| NodeStore.RemoveNamedFrame | packages/designer/src/document/node/node.ts:1078-1081 | dropping the named slots changes no parent link and no registered name, and leaves no slot of that name |
| NodeStore.DropNamedKeeps | packages/designer/src/document/node/node.ts:1078-1081 | dropping the named slots keeps the tree and the groups consistent |
| NodeStore.PushedSlotUnique | packages/designer/src/document/node/node.ts:1077-1083 | after the clearing step, pushing the slot leaves slot names unique under the owner |
| NodeStore.SameShapeKeepsOk | packages/designer/src/document/node/node.ts:1112-1125 | changing status, purge flags, props or extras keeps the tree and the groups consistent |
| NodeStore.RemovedKeeps | packages/designer/src/document/node/node.ts:623-642 | removal keeps the tree and the groups consistent and leaves every parent link in place |
| NodeStore.RemovedUnlisted | packages/designer/src/document/node/node.ts:623-642 | a removed node is listed nowhere and only its purge flags change; a parentless node is untouched |
| NodeStore.RemovedFrame | packages/designer/src/document/node/node.ts:623-642 | removal touches only the node and its parent, which loses the node from the one list that held it |
| NodeStore.RemovedAfterUnlink | packages/designer/src/document/node/node.ts:635-637 | removing a slot already dropped from its owner's slots is removing it |
| NodeStore.RemovedPurgeSteps | packages/designer/src/document/node/node.ts:637-639 | start purging, detach, mark purged: together these are the purging removal |
| NodeStore.RemovedKeepSteps | packages/designer/src/document/node/node.ts:639 | start purging, then splice out of the parent's children: together these are the non-purging removal |
| SchemaExport.BaseSchema | packages/designer/src/document/node/node.ts:957-966 | `componentName` always; `id` exactly unless cloning; `docId` exactly when rendering |
| SchemaExport.ExportChildren | packages/designer/src/document/node/node.ts:997-999 | one exported schema per child |
| SchemaExport.ExportShape | packages/designer/src/document/node/node.ts:955-1002 | which keys an exported schema has for a Leaf and for a parental node, including `children` only with at least one child and no bypass |
| SchemaExport.ExportValues | packages/designer/src/document/node/node.ts:991-995 | the identity keys carry the node's own name, id and document id, and `props` the transformed props |
| SchemaExport.ExportChildrenInOrder | packages/designer/src/document/node/node.ts:997-999 | exported children are the children's own exports, in order |
| SchemaExport.CloneHasNoIds | packages/designer/src/document/node/node.ts:961-963 | a cloned export has no `id` anywhere in the subtree unless a transform adds one |
| Documents.DetachDropsFrame | packages/designer/src/document/node/node.ts:583-585 | the `didDropOut` runs depend only on the parent links |
| Documents.SetParentTraceFrame | packages/designer/src/document/node/node.ts:583-600 | the drop-hook runs of a re-parenting depend only on the parent links |
| Documents.MoveDrops | packages/designer/src/document/node/node.ts:583-600 | the `didDropIn` path from the new parent is the same before and after unlinking |
| Documents.ClearedSlotName | packages/designer/src/document/node/node.ts:1078-1082 | clearing the slots named like the new slot leaves that slot, the ancestry and the hook runs unchanged, and no slot of that name |
| Documents.Document.DidDropIn | packages/designer/src/document/node/node.ts:544-553 | the hook runs at the node, then at each ancestor in turn up to the root |
| Documents.Document.DidDropOut | packages/designer/src/document/node/node.ts:555-564 | the hook runs at the node, then at each ancestor in turn up to the root |
| Documents.Document.UnlinkSlot | packages/designer/src/document/node/node.ts:1030-1039 | the first occurrence of the slot leaves the owner's slots; nothing else changes; the invariants hold |
| Documents.Document.RemoveSlot | packages/designer/src/document/node/node.ts:1044-1068 | the same removal, answering false in both outcomes |
| Documents.Document.UnlinkChild | packages/designer/src/document/node/node.ts:580 | the first occurrence of the child leaves the owner's children, the rest in order |
| Documents.Document.NewGroup | packages/designer/src/document/node/node.ts:717 | a new empty group under a fresh id |
| Documents.Document.LeaveConditionGroup | packages/designer/src/document/node/node.ts:705-708 | the node leaves its group's members and its group field is cleared |
| Documents.Document.EnterConditionGroup | packages/designer/src/document/node/node.ts:725-726 | the node's group is set and the group lists it |
| Documents.Document.SetConditionGroup | packages/designer/src/document/node/node.ts:701-728 | the new state is the join rule's, the invariants hold, and only the node's group fields change |
| Documents.Document.DetachConditionGroup | packages/designer/src/document/node/node.ts:703-710 | the detaching branch, as specified |
| Documents.Document.JoinConditionGroup | packages/designer/src/document/node/node.ts:711-727 | the joining branch, as specified |
| Documents.Document.RecoverConditionGroup | packages/designer/src/document/node/node.ts:591-597 | the initial-group step, with the invariants kept |
| Documents.Document.UnlinkFromParent | packages/designer/src/document/node/node.ts:576-582 | the node leaves its old parent's slots or children, with the invariants kept |
| Documents.Document.InternalSetParent | packages/designer/src/document/node/node.ts:570-603 | the invariants hold; the state is the re-parenting specification; the node leaves the purge list on a real attach; the hooks run out from the old parent, then in from the new one |
| Documents.Document.MoveTo | packages/designer/src/document/node/node.ts:575-601 | both halves of a move to a new parent, with the same guarantees |
| Documents.Document.DetachStep | packages/designer/src/document/node/node.ts:575-585 | unlink, then `didDropOut` from the old parent with the mutator |
| Documents.Document.AttachStep | packages/designer/src/document/node/node.ts:586-601 | link, leave the purge list, recover the group, then `didDropIn` from the new parent with the mutator |
| Documents.Document.DropInFrom | packages/designer/src/document/node/node.ts:599-601 | `didDropIn` runs from the new parent only with the mutator |
| Documents.Document.LinkTo | packages/designer/src/document/node/node.ts:588-589 | the parent link is set and the node leaves the purge list |
| Documents.Document.SetStatus | packages/designer/src/document/node/node.ts:1221-1229 | an unknown field changes nothing; a known one takes the flag; the invariants hold |
| Documents.Document.Purge | packages/designer/src/document/node/node.ts:1112-1121 | the node is marked purged, and purging twice is purging once |
| Documents.Document.InternalPurgeStart | packages/designer/src/document/node/node.ts:1123-1125 | the node is marked purging |
| Documents.Document.InitBuiltinProps | packages/designer/src/document/node/node.ts:411-418 | the node's extras become their seeded form, with the invariants kept |
| Documents.Document.InternalSetWillPurge | packages/designer/src/document/node/node.ts:539-542 | detaching without the mutator, then the node joins the purge list; no hook runs |
| Documents.Document.InternalDelete | packages/designer/src/document/node/node.ts:637-639 | the node ends in the removed state; hooks run out from the parent only when purging |
| Documents.Document.DetachPurging | packages/designer/src/document/node/node.ts:637-639 | the purging removal, with `didDropOut` from the old parent |
| Documents.Document.Remove | packages/designer/src/document/node/node.ts:623-642 | the store becomes the removal specification, the invariants hold, and hooks run only for a purging removal under a parental parent |
| Documents.Document.DropNamedSlots | packages/designer/src/document/node/node.ts:1080 | the owner's slots registered under the name are dropped, with the invariants kept |
| Documents.Document.PushSlot | packages/designer/src/document/node/node.ts:1083 | the slot is appended to the owner's slots and nothing else changes |
| Documents.Document.ClearSlotName | packages/designer/src/document/node/node.ts:1078-1081 | the owner's slots of that name are dropped only when there are any, and the result is the same either way |
| Documents.Document.AddSlot | packages/designer/src/document/node/node.ts:1070-1088 | the whole new state is `AddSlotSpec` of the old one; the slot hangs under the owner, whose slots are its old ones without the slot's name followed by the slot, with unique names; the invariants, purge list and hooks follow `internalSetParent` |
| Documents.Document.AttachSlot | packages/designer/src/document/node/node.ts:1082-1083 | the whole new state is `ReparentAndPush` of the old one: re-parenting then pushing, with slot names kept unique |
| Documents.Document.ReparentSlot | packages/designer/src/document/node/node.ts:1082 | the whole new state is `SetParentSpec` of the old one; the slot is linked to the owner and listed nowhere; the owner and every registered name are unchanged |
| NodeRecords.StatusOf | packages/designer/src/document/node/node.ts:1212 | definition: the flag a status field holds |
| NodeRecords.IsLeaf | packages/designer/src/document/node/node.ts:535-537 | definition: a Leaf is a node whose component is `Leaf`; its relations to the other kinds are proved in `Classification` |
| NodeRecords.IsParental | packages/designer/src/document/node/node.ts:525-527 | definition: every node that is not a Leaf |
| NodeRecords.IsSlot | packages/designer/src/document/node/node.ts:514-516 | definition: a `Slot` component whose slot-owner prop is set |
| NodeRecords.IsEmpty | packages/designer/src/document/node/node.ts:1144-1146 | definition: a Leaf, or a parental node without children |
| NodeRecords.IsRoot | packages/designer/src/document/node/node.ts:490-492 | definition: the node is the document's root |
| NodeRecords.IsPage | packages/designer/src/document/node/node.ts:498-500 | definition: a root whose component is `Page` |
| NodeRecords.IsComponent | packages/designer/src/document/node/node.ts:506-508 | definition: a root whose component is `Component` |
| NodeRecords.SlotName | packages/designer/src/document/node/node.ts:1071 | definition: the `name` extra read as a string |
| NodeRecords.HasCondition | packages/designer/src/document/node/node.ts:740-743 | definition of `hasCondition`; its cases are proved in `HasConditionCases` |
| NodeRecords.HasLoop | packages/designer/src/document/node/node.ts:749-762 | definition of `hasLoop`, as coded; its cases are proved in `HasLoopCases` |
| NodeRecords.Seed | packages/designer/src/document/node/node.ts:412 | definition: a key is added only when missing |
| Values.AsString | packages/designer/src/document/node/node.ts:593 | the assumed reading of `getAsString`, whose Prop class is not part of this model: a string gives itself, anything else `''` |
| TreePosition.ZLevel | packages/designer/src/document/node/node.ts:271-276 | definition of `zLevel`; its meaning as a count of parent steps is proved in `AncestorDepth` |
| TreePosition.AncestorAtDepth | packages/designer/src/document/node/node.ts:1437-1450 | definition of the result of `getZLevelTop`; its properties are proved in `AncestorAtDepthSpec` |
| TreePosition.Contains | packages/designer/src/document/node/node.ts:1458-1473 | definition of `contains`, branch by branch; its meaning is proved in `ContainsMeaning` |
| TreePosition.ComparePosition | packages/designer/src/document/node/node.ts:1485-1510 | definition of `comparePosition`, branch by branch; its meaning is proved in `ComparePositionMeaning` |
| TreePosition.DropChain | packages/designer/src/document/node/node.ts:544-564 | the nodes a drop hook bubbles through, all in the document; the chain is characterised in `DropChainSpec` |
| NodeStore.NextSibling | packages/designer/src/document/node/node.ts:885-897 | definition of `nextSibling`; related to `prevSibling` in `SiblingsAdjacent` |
| NodeStore.PrevSibling | packages/designer/src/document/node/node.ts:902-914 | definition of `prevSibling`; related to `nextSibling` in `SiblingsAdjacent` |
| NodeStore.GroupName | packages/designer/src/document/node/node.ts:712-714 | definition of `node?.conditionGroup?.name` |
| NodeStore.LeaveGroup | packages/designer/src/document/node/node.ts:705-708 | definition of leaving a group; keeps every key (its bookkeeping is proved in `LeaveGroupOk`) |
| NodeStore.Allocate | packages/designer/src/document/node/node.ts:717 | definition of `new ExclusiveGroup(name)`; adds exactly the fresh id |
| NodeStore.EnterGroup | packages/designer/src/document/node/node.ts:725-726 | definition of joining a group; keeps every key (its bookkeeping is proved in `EnterGroupOk`) |
| NodeStore.WithExtras | packages/designer/src/document/node/node.ts:721 | definition of writing the extras; the group fields stay as they were |
| NodeStore.SetConditionGroupSpec | packages/designer/src/document/node/node.ts:701-728 | definition of the whole effect of `setConditionGroup`; proved in `SetConditionGroupKeeps` and `SetConditionGroupMeaning` |
| NodeStore.DetachSpec | packages/designer/src/document/node/node.ts:703-710 | definition of the detaching branch; proved in `DetachKeeps` and `DetachMeaning` |
| NodeStore.JoinSpec | packages/designer/src/document/node/node.ts:711-727 | definition of the joining branch; proved in `JoinKeeps` and `JoinResult` |
| NodeStore.RecoverGroupSpec | packages/designer/src/document/node/node.ts:591-597 | definition of the initial-group step; proved in `RecoverKeeps` and `RecoverGroupMeaning` |
| NodeStore.Unlink | packages/designer/src/document/node/node.ts:575-582 | definition of the unlinking step; keeps every key (proved in `UnlinkKeeps` and `UnlinkFrame`) |
| NodeStore.Link | packages/designer/src/document/node/node.ts:588 | definition of `this._parent = parent`; keeps every key (proved in `LinkKeeps`) |
| NodeStore.AttachSpec | packages/designer/src/document/node/node.ts:586-597 | definition of the attach half: link, then initial-group recovery (proved in `AttachKeeps`) |
| NodeStore.SetParentSpec | packages/designer/src/document/node/node.ts:570-603 | definition of the whole effect of `internalSetParent`; proved in `SetParentKeeps` and `SetParentFrame` |
| NodeStore.ParentHasChildren | packages/designer/src/document/node/node.ts:637-639 | definition: the parent has a children collection, so `children?.internalDelete` runs |
| NodeStore.Removed | packages/designer/src/document/node/node.ts:623-642 | definition of the whole effect of `remove`; keeps every key (proved in `RemovedKeeps`, `RemovedUnlisted` and `RemovedFrame`) |
| NodeStore.IncludesSlot | packages/designer/src/document/node/node.ts:1078 | definition of `includeSlot(this, name)` |
| NodeStore.ClearNamed | packages/designer/src/document/node/node.ts:1078-1081 | definition of dropping the owner's slots of a name on the whole state; keys, groups and counter unchanged |
| NodeStore.ClearNamedKeeps | packages/designer/src/document/node/node.ts:1078-1081 | dropping the slots named like the new slot keeps the invariants, the slot itself and the owner's ancestry |
| NodeStore.ReparentAndPush | packages/designer/src/document/node/node.ts:1082-1083 | definition of `internalSetParent(this, true)` then `_slots.push`; keeps every key |
| NodeStore.ReparentAndPushFrame | packages/designer/src/document/node/node.ts:1082-1083 | the slot gets the owner as parent, the owner gains exactly the slot at the end of its slots, and no node but the slot's old parent changes besides |
| NodeStore.AddSlotSpec | packages/designer/src/document/node/node.ts:1070-1088 | definition of the whole effect of `addSlot`; keeps every key |
| NodeStore.AddSlotMeaning | packages/designer/src/document/node/node.ts:1070-1088 | after `addSlot` the slot hangs under the owner; the owner keeps every field but its slots, which are the old ones without the slot's name followed by the slot; every node other than the owner, the slot and its old parent is unchanged |
| SchemaExport.Export | packages/designer/src/document/node/node.ts:955-1002 | definition of `export`; its keys and values are proved in `ExportShape`, `ExportValues`, `ExportChildrenInOrder` and `CloneHasNoIds` |
| SchemaExport.ExtrasOut | packages/designer/src/document/node/node.ts:976-994 | definition: the transformed extras with the non-prop addon data laid over them |
| SchemaExport.PropsOut | packages/designer/src/document/node/node.ts:980-993 | definition: the transformed props with the prop addon data laid over them |
| Documents.DropIns | packages/designer/src/document/node/node.ts:544-553 | definition of the trace of `didDropIn` along a chain |
| Documents.DropOuts | packages/designer/src/document/node/node.ts:555-564 | definition of the trace of `didDropOut` along a chain |
| Documents.SetParentTrace | packages/designer/src/document/node/node.ts:583-600 | definition of the hook runs of `internalSetParent`: out from the old parent, then in from the new one, only with the mutator and a real move |
| Documents.DetachDrops | packages/designer/src/document/node/node.ts:583-585 | definition of the `didDropOut` runs of a detach |
| Documents.AttachDrops | packages/designer/src/document/node/node.ts:599-601 | definition of the `didDropIn` runs of an attach |
| Documents.Document.SetExtras | packages/designer/src/document/node/node.ts:721 | the extras are replaced and nothing else changes (`WithExtras`) |

## Left out

- Reactivity (MobX observables, computed values, autoruns and their disposal in `purge`), the event bus, `notifyChildrenChange` and console logging: they have no effect on the node state modelled here.
- The `Props` class and the designer's `transformProps` reducers are not part of this model. Props and extras are maps keyed by bare name, and `export` takes the transform as a parameter. A prop's own `export(stage)` is taken to be its value.
- The metadata callbacks (`onNodeAdd`, `onNodeRemove`) are foreign calls. They are recorded as entries of a ghost trace, one per node a hook passes through.
- The `NodeChildren` collection is not part of this model. `Document.UnlinkChild` splices the child out. `Document.InternalDelete` deletes only the node itself, purging it when asked: no recursive deletion of the subtree, and no document-level `unlinkNode`, `destroyNode` or selection update.
- The slot helpers `includeSlot` and `removeSlot` of the slot utilities are not part of this model. They are taken to drop the owner's slots registered under the name from its slot list, without touching the slot nodes themselves. The empty name is matched like any other, so adding a slot without a `name` drops every unnamed slot of the owner, and the unique-names property covers the empty name too.
- Documents.Document.AddSlot: requires a slot node and an owner outside the slot's subtree. The source does not check either; a cycle would make `zLevel` diverge.
- Documents.Document.InternalSetParent, and with it `MoveTo`, `AttachStep` and `LinkTo`: a new parent must lie outside the node's subtree. The source does not check this; a cycle would make `zLevel` diverge.
- Documents.Document.InternalSetParent: the tree invariant lists a node only under its parent, so the model re-parents a node that its new parent does not list yet. The children collection's insertion, which is not part of this model, may list the node first. As a consequence, during initial-group recovery `prevSibling`/`nextSibling` find nothing, and a re-parented node with a recorded group name always gets a fresh group. The sibling branches of the join rule are reached only through a direct `setConditionGroup`.
- Documents.Document.AttachStep: carries the same ordering assumption as `InternalSetParent`, through its requirement that no node lists the node yet.
- SchemaExport.ExportChildren: the children collection's `export(stage)` is not part of this model. It is taken to be each child's own `export`, with the same stage and no bypass, in order; `ExportChildrenInOrder` and `CloneHasNoIds` rest on this.
- Values.AsString: `getAsString` is a method of the Prop class, which is not part of this model. It is taken to give a string literal's text and `''` for every other value. If the Prop class stringifies numbers or booleans (a numeric `name` reading as `"5"`), the model differs for such values: `RecoverGroupSpec` (node.ts:593) would see no group name and `SlotName` (node.ts:1045, 1071) the empty name.
- NodeRecords.SlotName: `getExtraProp('name')` in `removeSlot` and `addSlot` creates an empty `name` extra on a slot that has none. The model reads the name without creating it, so such a slot's extras stay unchanged.
- The constructor beyond its pure parts is left out: `createNode`, `nextId` and the wiring of props and children. The Leaf content rule, `initialChildren` and `initBuiltinProps` are modelled.
- `isConditionalVisible` / `setConditionalVisible` delegate to ExclusiveGroup visibility, which is not part of this model.
- Addon registration is left out. Addon data is held already split by `isProp`, keyed by its converted key.
- These operations of the node are left out: `import`, `insert`, `insertBefore`/`insertAfter`, `replaceChild`, `wrapWith`, `replaceWith`, `removeChild`, `mergeChildren`, `internalSetSlotFor`, `select`, `hover`, `getRGL`, `getSuitablePlace`, `canPerformAction`, `lock`, `title`, `icon`, `isContainer`, `isValidComponent`, `setProps`, `mergeProps`, the prop accessors and `compatStage`. They are forwarders to collaborators whose code is not part of this model.
- `unlinkSlot`'s return value is not modelled: it answers `false` or `undefined`, and no caller reads it.
- Numbers held in props are unbounded integers; floating point is not modelled.
- The build plugins of the engine and the renderer are configuration, not behaviour of the node tree.
