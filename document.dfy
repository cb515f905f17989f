/** The owning document and the state-changing operations of `Node`. Every node method is a
    method of the document that takes the node's id (`this` in the source) first. */
module Documents {
  import opened Values
  import opened Sequences
  import opened NodeRecords
  import opened TreePosition
  import opened NodeStore

  /** One run of a drop hook: `didDropIn` (the metadata's `onNodeAdd` callback) or `didDropOut`
      (`onNodeRemove`) at node `at`, for the node `dragment` that moved. */
  datatype DropEvent = DropIn(at: Id, dragment: Id) | DropOut(at: Id, dragment: Id)

  /** The hook runs of `didDropIn` along `chain`, in order. */
  function DropIns(chain: seq<Id>, dragment: Id): seq<DropEvent> {
    if |chain| == 0 then [] else [DropIn(chain[0], dragment)] + DropIns(chain[1..], dragment)
  }

  /** The hook runs of `didDropOut` along `chain`, in order. */
  function DropOuts(chain: seq<Id>, dragment: Id): seq<DropEvent> {
    if |chain| == 0 then [] else [DropOut(chain[0], dragment)] + DropOuts(chain[1..], dragment)
  }

  /** The drop-hook trace after `internalSetParent(p, useMutator)`: with the mutator on and a
      real move, `didDropOut` bubbles from the old parent, then `didDropIn` from the new one. */
  function SetParentTrace(trace: seq<DropEvent>, nodes: Store, n: Id, p: Option<Id>, useMutator: bool): seq<DropEvent>
    requires Acyclic(nodes) && n in nodes
    requires p.Some? ==> p.value in nodes
  {
    if nodes[n].parent == p then trace
    else if p.Some? then trace + DetachDrops(nodes, n, useMutator) + AttachDrops(nodes, n, p.value, useMutator)
    else trace + DetachDrops(nodes, n, useMutator)
  }

  /** `didDropOut` from the old parent, when the mutator is on and there is one. */
  function DetachDrops(nodes: Store, n: Id, useMutator: bool): seq<DropEvent>
    requires Acyclic(nodes) && n in nodes
  {
    var q := nodes[n].parent;
    if useMutator && q.Some? then ParentRanked(nodes, n); DropOuts(DropChain(nodes, q.value), n) else []
  }

  /** `didDropIn` from the new parent `p`, when the mutator is on. */
  function AttachDrops(nodes: Store, n: Id, p: Id, useMutator: bool): seq<DropEvent>
    requires Acyclic(nodes) && p in nodes
  {
    if useMutator then DropIns(DropChain(nodes, p), n) else []
  }

  /** The hook runs of a detach depend only on the parent links. */
  lemma DetachDropsFrame(nodes: Store, nodes': Store, n: Id, useMutator: bool)
    requires Acyclic(nodes) && Acyclic(nodes') && n in nodes && nodes'.Keys == nodes.Keys
    requires forall x | x in nodes :: nodes'[x].parent == nodes[x].parent
    ensures DetachDrops(nodes', n, useMutator) == DetachDrops(nodes, n, useMutator)
  {
    var q := nodes[n].parent;
    if useMutator && q.Some? {
      ParentRanked(nodes, n);
      DropChainFrame(nodes, nodes', q.value);
    }
  }

  /** Starting to purge a node changes no hook run of its detach. */
  lemma PurgingDrops(nodes: Store, n: Id, useMutator: bool)
    requires Acyclic(nodes) && n in nodes
    ensures var n1 := nodes[n := nodes[n].(purging := true)];
      Acyclic(n1) && DetachDrops(n1, n, useMutator) == DetachDrops(nodes, n, useMutator)
  {
    var n1 := nodes[n := nodes[n].(purging := true)];
    SameParentsKeepAcyclic(nodes, n1);
    DetachDropsFrame(nodes, n1, n, useMutator);
  }

  /** What `addSlot` relies on after dropping the owner's slots named like the new slot `s`:
      `s` itself, the ancestry and the hook runs of re-parenting `s` are unchanged, and no
      slot of the owner is left under that name. */
  lemma ClearedSlotName(trace: seq<DropEvent>, nodes: Store, owner: Id, s: Id)
    requires Wf(nodes) && owner in nodes && s in nodes && !InSubtree(nodes, owner, s)
    requires forall t | t in nodes[owner].slots :: t in nodes
    ensures var name := SlotName(nodes[s]);
      var n1 := nodes[owner := nodes[owner].(slots := RemoveNamed(nodes, nodes[owner].slots, name))];
      && Acyclic(n1) && n1[s] == nodes[s] && !InSubtree(n1, owner, s)
      && SetParentTrace(trace, n1, s, Some(owner), true) == SetParentTrace(trace, nodes, s, Some(owner), true)
      && (forall t | t in n1[owner].slots :: t in n1 && SlotName(n1[t]) != name)
  {
    var name := SlotName(nodes[s]);
    var n1 := nodes[owner := nodes[owner].(slots := RemoveNamed(nodes, nodes[owner].slots, name))];
    RemoveNamedFrame(nodes, owner, name);
    SameParentsKeepAcyclic(nodes, n1);
    StrictAncestorFrame(nodes, n1, s, owner);
    SetParentTraceFrame(trace, nodes, n1, s, Some(owner), true);
  }

  /** The hook runs of a re-parenting depend only on the parent links. */
  lemma SetParentTraceFrame(trace: seq<DropEvent>, nodes: Store, nodes': Store, n: Id, p: Option<Id>, useMutator: bool)
    requires Acyclic(nodes) && Acyclic(nodes') && n in nodes && nodes'.Keys == nodes.Keys
    requires p.Some? ==> p.value in nodes
    requires forall x | x in nodes :: nodes'[x].parent == nodes[x].parent
    ensures SetParentTrace(trace, nodes', n, p, useMutator) == SetParentTrace(trace, nodes, n, p, useMutator)
  {
    DetachDropsFrame(nodes, nodes', n, useMutator);
    if p.Some? {
      DropChainFrame(nodes, nodes', p.value);
    }
  }

  /** The chain above the new parent of a move is the same before and after the unlinking. */
  lemma MoveDrops(nodes: Store, n: Id, p: Id, useMutator: bool)
    requires Wf(nodes) && n in nodes && p in nodes
    ensures Acyclic(Unlink(nodes, n))
    ensures AttachDrops(Unlink(nodes, n), n, p, useMutator) == AttachDrops(nodes, n, p, useMutator)
  {
    UnlinkKeepsChain(nodes, n, p);
  }

  class Document {
    const id: string
    var nodes: Store
    var rootNode: Option<Id>
    var groups: map<GroupId, ExclusiveGroup>
    /** The id the next `new ExclusiveGroup` receives. */
    var nextGroup: GroupId
    /** Nodes detached and awaiting purge (`addWillPurge` / `removeWillPurge`). */
    var willPurge: set<Id>
    /** Every drop-hook run so far, in order. */
    ghost var dropTrace: seq<DropEvent>

    ghost predicate Valid()
      reads this`nodes, this`groups, this`nextGroup
    {
      Wf(nodes) && GroupsOk(nodes, groups, nextGroup)
    }

    ghost function View(): GroupView
      reads this`nodes, this`groups, this`nextGroup
    {
      GroupView(nodes, groups, nextGroup)
    }

    constructor(id: string)
      ensures Valid()
      ensures this.id == id && nodes == map[] && rootNode == None
      ensures groups == map[] && willPurge == {} && dropTrace == []
    {
      this.id := id;
      nodes := map[];
      rootNode := None;
      groups := map[];
      nextGroup := 0;
      willPurge := {};
      dropTrace := [];
      assert RankedBy(map[], map[], 0);
    }

    // ---- drop hooks

    /** `didDropIn(dragment)`: runs the hook at `x`, then at its parent, up to the root. */
    method DidDropIn(x: Id, dragment: Id)
      requires Valid() && x in nodes
      modifies this`dropTrace
      ensures dropTrace == old(dropTrace) + DropIns(DropChain(nodes, x), dragment)
      decreases Rank(nodes, x)
    {
      dropTrace := dropTrace + [DropIn(x, dragment)];
      match nodes[x].parent {
        case None =>
        case Some(p) =>
          ParentRanked(nodes, x);
          DidDropIn(p, dragment);
          assert DropChain(nodes, x)[1..] == DropChain(nodes, p);
      }
    }

    /** `didDropOut(dragment)`: runs the hook at `x`, then at its parent, up to the root. */
    method DidDropOut(x: Id, dragment: Id)
      requires Valid() && x in nodes
      modifies this`dropTrace
      ensures dropTrace == old(dropTrace) + DropOuts(DropChain(nodes, x), dragment)
      decreases Rank(nodes, x)
    {
      dropTrace := dropTrace + [DropOut(x, dragment)];
      match nodes[x].parent {
        case None =>
        case Some(p) =>
          ParentRanked(nodes, x);
          DidDropOut(p, dragment);
          assert DropChain(nodes, x)[1..] == DropChain(nodes, p);
      }
    }

    // ---- slots

    /** `unlinkSlot(slotNode)`: drops the first occurrence of `s` from the owner's slots; a slot
        that is not there leaves them as they are. */
    method UnlinkSlot(owner: Id, s: Id)
      requires Valid() && owner in nodes
      modifies this`nodes
      ensures Valid()
      ensures nodes == old(nodes)[owner := old(nodes)[owner].(slots := RemoveFirst(old(nodes)[owner].slots, s))]
    {
      var slots := nodes[owner].slots;
      var i := IndexOf(slots, s);
      if i < 0 {
        return;
      }
      DropSlotKeeps(nodes, groups, nextGroup, owner, s);
      nodes := nodes[owner := nodes[owner].(slots := slots[..i] + slots[i + 1..])];
    }

    /** `removeSlot(slotNode)`: the same removal as `unlinkSlot` (plus a change notification,
        not modelled); it answers false whether or not the slot was there. */
    method RemoveSlot(owner: Id, s: Id) returns (r: bool)
      requires Valid() && owner in nodes
      modifies this`nodes
      ensures Valid()
      ensures nodes == old(nodes)[owner := old(nodes)[owner].(slots := RemoveFirst(old(nodes)[owner].slots, s))]
      ensures !r
    {
      UnlinkSlot(owner, s);
      return false;
    }

    /** `children.unlinkChild(node)` of the NodeChildren collection: drops the first occurrence
        of `c` from the owner's children, keeping the others in order. */
    method UnlinkChild(owner: Id, c: Id)
      requires Valid() && owner in nodes
      modifies this`nodes
      ensures Valid()
      ensures nodes == old(nodes)[owner := old(nodes)[owner].(children := RemoveFirst(old(nodes)[owner].children, c))]
    {
      var children := nodes[owner].children;
      var i := IndexOf(children, c);
      if i < 0 {
        return;
      }
      DropChildKeeps(nodes, groups, nextGroup, owner, c);
      nodes := nodes[owner := nodes[owner].(children := children[..i] + children[i + 1..])];
    }

    // ---- exclusive groups

    /** Replaces the node's extra props. */
    method SetExtras(n: Id, e: map<string, Value>)
      requires n in nodes
      modifies this`nodes
      ensures View() == WithExtras(old(View()), n, e)
    {
      nodes := nodes[n := nodes[n].(extras := e)];
    }

    /** `new ExclusiveGroup(name)`: an empty group under a fresh id `g`. */
    method NewGroup(name: string) returns (g: GroupId)
      modifies this`groups, this`nextGroup
      ensures View() == Allocate(old(View()), name) && g == old(nextGroup)
    {
      g := nextGroup;
      groups := groups[g := ExclusiveGroup(name, {})];
      nextGroup := nextGroup + 1;
    }

    /** `_conditionGroup.remove(this)` followed by clearing the field. */
    method LeaveConditionGroup(n: Id)
      requires n in nodes
      requires nodes[n].conditionGroup.Some? ==> nodes[n].conditionGroup.value in groups
      modifies this`nodes, this`groups
      ensures View() == LeaveGroup(old(View()), n)
    {
      var cg := nodes[n].conditionGroup;
      if cg.Some? {
        var g := cg.value;
        groups := groups[g := groups[g].(members := groups[g].members - {n})];
        nodes := nodes[n := nodes[n].(conditionGroup := None)];
      }
    }

    /** `_conditionGroup = grp; grp.add(this)`. */
    method EnterConditionGroup(n: Id, g: GroupId)
      requires n in nodes && g in groups
      modifies this`nodes, this`groups
      ensures View() == EnterGroup(old(View()), n, g)
    {
      nodes := nodes[n := nodes[n].(conditionGroup := Some(g))];
      groups := groups[g := groups[g].(members := groups[g].members + {n})];
    }

    /** `setConditionGroup(grp)`. */
    method SetConditionGroup(n: Id, arg: GroupArg)
      requires Valid() && n in nodes
      modifies this`nodes, this`groups, this`nextGroup
      ensures Valid()
      ensures View() == SetConditionGroupSpec(old(View()), n, arg)
      ensures OnlyGroupFields(old(nodes), nodes, n)
    {
      SetConditionGroupKeeps(View(), n, arg);
      if arg.GroupObject? {
        // an ExclusiveGroup object passes the `!grp` test but not the `!isExclusiveGroup` one
      } else if arg.NoGroup? || arg.name == "" {
        DetachConditionGroup(n);
      } else {
        JoinConditionGroup(n, arg.name);
      }
    }

    /** The branch of `setConditionGroup` for a missing or empty name. */
    method DetachConditionGroup(n: Id)
      requires Valid() && n in nodes
      modifies this`nodes, this`groups
      ensures View() == DetachSpec(old(View()), n)
    {
      SetExtras(n, nodes[n].extras - {"conditionGroup"});
      LeaveConditionGroup(n);
    }

    /** The branch of `setConditionGroup` for a non-empty name. */
    method JoinConditionGroup(n: Id, name: string)
      requires Valid() && n in nodes
      modifies this`nodes, this`groups, this`nextGroup
      ensures View() == JoinSpec(old(View()), n, name)
    {
      ghost var v := View();
      var r := nodes[n];
      var found := ResolveGroup(nodes, groups, n, name);
      var target: GroupId;
      if found.Some? {
        target := found.value;
      } else {
        AllocateOk(v, name);
        target := NewGroup(name);
      }
      if r.conditionGroup != Some(target) {
        SetExtras(n, r.extras["conditionGroup" := Str(groups[target].name)]);
        LeaveConditionGroup(n);
        EnterConditionGroup(n, target);
      }
    }

    /** The initial-group step inside `internalSetParent`: a node not yet in a group joins the
        group its `conditionGroup` extra names. */
    method RecoverConditionGroup(n: Id)
      requires Valid() && n in nodes
      modifies this`nodes, this`groups, this`nextGroup
      ensures Valid()
      ensures View() == RecoverGroupSpec(old(View()), n)
      ensures OnlyGroupFields(old(nodes), nodes, n)
    {
      if nodes[n].conditionGroup.None? {
        var grp := AsString(Lookup(nodes[n].extras, "conditionGroup"));
        if grp != "" {
          SetConditionGroup(n, Named(grp));
        }
      }
    }

    // ---- parent linkage

    /** The unlinking step of `internalSetParent`: `n` leaves its old parent's slots (a slot
        node) or children; its own parent link stays. */
    method UnlinkFromParent(n: Id)
      requires Valid() && n in nodes
      modifies this`nodes
      ensures Valid()
      ensures nodes == Unlink(old(nodes), n)
    {
      var q := nodes[n].parent;
      if q.Some? {
        ParentRanked(nodes, n);
        if IsSlot(nodes[n]) {
          UnlinkSlot(q.value, n);
        } else {
          UnlinkChild(q.value, n);
        }
      }
    }

    /** `internalSetParent(parent, useMutator)`. */
    method InternalSetParent(n: Id, p: Option<Id>, useMutator: bool)
      requires Valid() && n in nodes
      requires p.Some? ==> p.value in nodes && !InSubtree(nodes, p.value, n)
      modifies this`nodes, this`groups, this`nextGroup, this`willPurge, this`dropTrace
      ensures Valid()
      ensures View() == SetParentSpec(old(View()), n, p)
      ensures willPurge == (if old(nodes)[n].parent != p && p.Some? then old(willPurge) - {n} else old(willPurge))
      ensures dropTrace == SetParentTrace(old(dropTrace), old(nodes), n, p, useMutator)
    {
      if nodes[n].parent == p {
        return;
      }
      if p.None? {
        DetachStep(n, useMutator);
        assert nodes == Unlink(old(nodes), n);
      } else {
        MoveTo(n, p.value, useMutator);
      }
    }

    /** `internalSetParent(p)` for a new parent `p`: both halves in turn. */
    method MoveTo(n: Id, p: Id, useMutator: bool)
      requires Valid() && n in nodes && p in nodes && !InSubtree(nodes, p, n)
      requires nodes[n].parent != Some(p)
      modifies this`nodes, this`groups, this`nextGroup, this`willPurge, this`dropTrace
      ensures Valid()
      ensures View() == SetParentSpec(old(View()), n, Some(p))
      ensures willPurge == old(willPurge) - {n}
      ensures dropTrace == SetParentTrace(old(dropTrace), old(nodes), n, Some(p), useMutator)
    {
      UnlinkReady(View(), n, Some(p));
      MoveDrops(nodes, n, p, useMutator);
      DetachStep(n, useMutator);
      AttachStep(n, p, useMutator);
    }

    /** The first half of `internalSetParent` for a real move: unlink, then (with the mutator)
        bubble `didDropOut` from the old parent, whose parent link is still in place. */
    method DetachStep(n: Id, useMutator: bool)
      requires Valid() && n in nodes
      modifies this`nodes, this`dropTrace
      ensures Valid()
      ensures nodes == Unlink(old(nodes), n)
      ensures dropTrace == old(dropTrace) + DetachDrops(old(nodes), n, useMutator)
    {
      ghost var n0 := nodes;
      var q := nodes[n].parent;
      UnlinkKeeps(nodes, n);
      UnlinkFromParent(n);
      if useMutator && q.Some? {
        ParentRanked(n0, n);
        DropChainFrame(n0, nodes, q.value);
        DidDropOut(q.value, n);
      }
    }

    /** The second half of `internalSetParent(p)` on an unlinked node: set the link, leave the
        purge list, recover the initial group, and (with the mutator) bubble `didDropIn` from
        the new parent. */
    method AttachStep(n: Id, p: Id, useMutator: bool)
      requires Valid() && n in nodes && p in nodes && !InSubtree(nodes, p, n) && Unlisted(nodes, n)
      modifies this`nodes, this`groups, this`nextGroup, this`willPurge, this`dropTrace
      ensures Valid()
      ensures View() == AttachSpec(old(View()), n, p)
      ensures willPurge == old(willPurge) - {n}
      ensures dropTrace == old(dropTrace) + AttachDrops(old(nodes), n, p, useMutator)
    {
      LinkTo(n, p);
      RecoverConditionGroup(n);
      AttachChainKept(old(nodes), nodes, n, p);
      DropInFrom(p, n, useMutator);
    }

    /** With the mutator on, `didDropIn` bubbles from the new parent `p`. */
    method DropInFrom(p: Id, n: Id, useMutator: bool)
      requires Valid() && p in nodes
      modifies this`dropTrace
      ensures dropTrace == old(dropTrace) + AttachDrops(nodes, n, p, useMutator)
    {
      if useMutator {
        DidDropIn(p, n);
      }
    }
  
    /** `this._parent = parent` with the node taken off the purge list. */
    method LinkTo(n: Id, p: Id)
      requires Valid() && n in nodes && p in nodes && !InSubtree(nodes, p, n) && Unlisted(nodes, n)
      modifies this`nodes, this`willPurge
      ensures Valid()
      ensures nodes == Link(old(nodes), n, p) && willPurge == old(willPurge) - {n}
    {
      LinkKeeps(View(), n, p);
      nodes := Link(nodes, n, p);
      willPurge := willPurge - {n};
    }
  
    // ---- node state

    /** `setStatus(field, flag)`: a name that is not an own property of the status object is
        ignored; otherwise the flag takes the value (written only when it differs). */
    method SetStatus(n: Id, field: string, flag: bool)
      requires Valid() && n in nodes
      modifies this`nodes
      ensures Valid()
      ensures StatusFieldNamed(field).None? ==> nodes == old(nodes)
      ensures StatusFieldNamed(field).Some? ==>
        nodes == old(nodes)[n := old(nodes)[n].(status := WithStatus(old(nodes)[n].status, StatusFieldNamed(field).value, flag))]
    {
      var f := StatusFieldNamed(field);
      if f.None? {
        return;
      }
      var r := nodes[n];
      if flag != StatusOf(r.status, f.value) {
        SameShapeKeepsOk(View(), n, r.(status := WithStatus(r.status, f.value, flag)));
        nodes := nodes[n := r.(status := WithStatus(r.status, f.value, flag))];
      } else {
        WithStatusSame(r.status, f.value);
        assert nodes[n := r] == nodes;
      }
    }

    /** `purge()`: marks the node purged; a purged node is left as it is, so purging twice is
        purging once. */
    method Purge(n: Id)
      requires Valid() && n in nodes
      modifies this`nodes
      ensures Valid()
      ensures nodes == old(nodes)[n := old(nodes)[n].(purged := true)]
      ensures old(nodes)[n].purged ==> nodes == old(nodes)
    {
      var r := nodes[n];
      if r.purged {
        assert r.(purged := true) == r;
        assert nodes[n := r] == nodes;
        return;
      }
      SameShapeKeepsOk(View(), n, r.(purged := true));
      nodes := nodes[n := r.(purged := true)];
    }

    /** `internalPurgeStart()`: marks the node as being purged. */
    method InternalPurgeStart(n: Id)
      requires Valid() && n in nodes
      modifies this`nodes
      ensures Valid()
      ensures nodes == old(nodes)[n := old(nodes)[n].(purging := true)]
    {
      SameShapeKeepsOk(View(), n, nodes[n].(purging := true));
      nodes := nodes[n := nodes[n].(purging := true)];
    }

    /** `initBuiltinProps()`: the six built-in extras, each added to the node's extra props
        (`props.has(key) || props.add(value, key)`) only when missing. */
    method InitBuiltinProps(n: Id)
      requires Valid() && n in nodes
      modifies this`nodes
      ensures Valid()
      ensures nodes == old(nodes)[n := old(nodes)[n].(extras := WithBuiltins(old(nodes)[n].extras))]
    {
      var r := nodes[n];
      var extras := r.extras;
      extras := Seed(extras, "hidden", Bool(false));
      extras := Seed(extras, "title", Str(""));
      extras := Seed(extras, "isLocked", Bool(false));
      extras := Seed(extras, "condition", Bool(true));
      extras := Seed(extras, "conditionGroup", Str(""));
      extras := Seed(extras, "loop", Undefined);
      SameShapeKeepsOk(View(), n, r.(extras := extras));
      nodes := nodes[n := r.(extras := extras)];
    }
  
    // ---- removal

    /** `internalSetWillPurge()`: detaches the node (without the mutator) and puts it on the
        document's purge list. */
    method InternalSetWillPurge(n: Id)
      requires Valid() && n in nodes
      modifies this`nodes, this`groups, this`nextGroup, this`willPurge, this`dropTrace
      ensures Valid()
      ensures View() == SetParentSpec(old(View()), n, None)
      ensures willPurge == old(willPurge) + {n} && dropTrace == old(dropTrace)
    {
      InternalSetParent(n, None, false);
      willPurge := willPurge + {n};
    }

    /** `children.internalDelete(node, purge, useMutator)` of the owner's NodeChildren, for a
        node its owner no longer holds among its slots: the node starts purging; with `purge` it
        is detached (`internalSetParent(null, useMutator)`, which for a node with a parent is
        its detach half) and purged, otherwise it is spliced out of the owner's children. */
    method InternalDelete(owner: Id, n: Id, purge: bool, useMutator: bool)
      requires Valid() && owner in nodes && n in nodes && nodes[n].parent == Some(owner)
      requires n !in nodes[owner].slots && IsParental(nodes[owner])
      modifies this`nodes, this`dropTrace
      ensures Valid()
      ensures nodes == Removed(old(nodes), n, purge)
      ensures dropTrace == old(dropTrace) + (if purge then DetachDrops(old(nodes), n, useMutator) else [])
    {
      ghost var n0 := nodes;
      InternalPurgeStart(n);
      if purge {
        DetachPurging(n, useMutator, n0);
      } else {
        RemovedKeepSteps(n0, n, owner);
        UnlinkChild(owner, n);
      }
    }

    /** The purging branch of `internalDelete` on a node that has started purging (`n0` is the
        store before that): `internalSetParent(null, useMutator)`, then `purge()`. */
    method DetachPurging(n: Id, useMutator: bool, ghost n0: Store)
      requires Valid() && Wf(n0) && n in n0 && ParentHasChildren(n0, n)
      requires nodes == n0[n := n0[n].(purging := true)]
      modifies this`nodes, this`dropTrace
      ensures Valid()
      ensures nodes == Removed(n0, n, true)
      ensures dropTrace == old(dropTrace) + DetachDrops(n0, n, useMutator)
    {
      RemovedPurgeSteps(n0, n);
      PurgingDrops(n0, n, useMutator);
      DetachStep(n, useMutator);
      Purge(n);
    }

    /** `remove(useMutator, purge)`: a node with a parent leaves its parent's slots (a slot
        node) and is then deleted through its parent's children collection, which a Leaf parent
        does not have; a node without a parent stays. */
    method Remove(n: Id, useMutator: bool, purge: bool)
      requires Valid() && n in nodes
      modifies this`nodes, this`dropTrace
      ensures Valid()
      ensures nodes == Removed(old(nodes), n, purge)
      ensures dropTrace == old(dropTrace) +
        (if ParentHasChildren(old(nodes), n) && purge then DetachDrops(old(nodes), n, useMutator) else [])
    {
      var q := nodes[n].parent;
      if q.None? {
        return;
      }
      ParentRanked(nodes, n);
      assert Linked(nodes, q.value);
      if IsSlot(nodes[n]) {
        RemoveFirstNoDup(nodes[q.value].slots, n);
        RemovedAfterUnlink(nodes, n, purge);
        UnlinkKeeps(nodes, n);
        DetachDropsFrame(nodes, Unlink(nodes, n), n, useMutator);
        var _ := RemoveSlot(q.value, n);
      }
      if IsParental(nodes[q.value]) {
        InternalDelete(q.value, n, purge, useMutator);
      } else if !IsSlot(nodes[n]) {
        UnlinkUnlisted(nodes, n);
      }
    }
  
    /** `removeSlot(node, name)` of the slot helpers: the owner's slots registered under
        `name` are dropped from its slots. */
    method DropNamedSlots(owner: Id, name: string)
      requires Valid() && owner in nodes
      requires forall t | t in nodes[owner].slots :: t in nodes
      modifies this`nodes
      ensures Valid()
      ensures nodes == old(nodes)[owner := old(nodes)[owner].(slots := RemoveNamed(old(nodes), old(nodes)[owner].slots, name))]
    {
      DropNamedKeeps(nodes, groups, nextGroup, owner, name);
      nodes := nodes[owner := nodes[owner].(slots := RemoveNamed(nodes, nodes[owner].slots, name))];
    }

    /** `_slots.push(slotNode)` for a slot node already linked to the owner and listed nowhere. */
    method PushSlot(owner: Id, s: Id)
      requires Valid() && owner in nodes && s in nodes
      requires nodes[s].parent == Some(owner) && IsSlot(nodes[s])
      requires forall y | y in nodes :: s !in nodes[y].slots
      modifies this`nodes
      ensures Valid()
      ensures nodes == old(nodes)[owner := old(nodes)[owner].(slots := old(nodes)[owner].slots + [s])]
      ensures nodes.Keys == old(nodes).Keys && nodes[owner].slots == old(nodes)[owner].slots + [s]
      ensures forall x | x in nodes && x != owner :: nodes[x] == old(nodes)[x]
    {
      AppendSlotKeepsWf(nodes, owner, s);
      SameGroupFieldsOk(nodes, nodes[owner := nodes[owner].(slots := nodes[owner].slots + [s])], groups, nextGroup);
      nodes := nodes[owner := nodes[owner].(slots := nodes[owner].slots + [s])];
    }

    /** `includeSlot(this, name) && removeSlot(this, name)`: the owner's slots registered under
        `name` are dropped, when there are any. */
    method ClearSlotName(owner: Id, name: string)
      requires Valid() && owner in nodes
      modifies this`nodes
      ensures Valid() && nodes.Keys == old(nodes).Keys
      ensures var os := old(nodes)[owner].slots;
        && (forall t | t in os :: t in old(nodes))
        && nodes == old(nodes)[owner := old(nodes)[owner].(slots := RemoveNamed(old(nodes), os, name))]
    {
      assert Linked(nodes, owner);
      if IncludesSlot(nodes, nodes[owner].slots, name) {
        DropNamedSlots(owner, name);
      } else {
        RemoveNamedAbsent(nodes, nodes[owner].slots, name);
        assert nodes[owner := nodes[owner]] == nodes;
      }
    }

    /** `addSlot(slotNode)`: slot names are unique per owner, so a slot already registered
        under the new slot's name is dropped first; the slot node is then re-parented to the
        owner (with the mutator) and appended to its slots. */
    method AddSlot(owner: Id, s: Id)
      requires Valid() && owner in nodes && s in nodes
      requires IsSlot(nodes[s]) && !InSubtree(nodes, owner, s)
      modifies this`nodes, this`groups, this`nextGroup, this`willPurge, this`dropTrace
      ensures Valid() && nodes.Keys == old(nodes).Keys
      ensures View() == AddSlotSpec(old(View()), owner, s)
      ensures nodes[s].parent == Some(owner)
      ensures var os := old(nodes)[owner].slots;
        && (forall t | t in os :: t in old(nodes))
        && nodes[owner].slots == RemoveNamed(old(nodes), os, SlotName(old(nodes)[s])) + [s]
      ensures forall t | t in nodes[owner].slots && t != s :: t in nodes && SlotName(nodes[t]) != SlotName(nodes[s])
      ensures willPurge == (if old(nodes)[s].parent != Some(owner) then old(willPurge) - {s} else old(willPurge))
      ensures dropTrace == SetParentTrace(old(dropTrace), old(nodes), s, Some(owner), true)
    {
      var name := SlotName(nodes[s]);
      ghost var n0 := nodes;
      assert Linked(nodes, owner);
      ClearedSlotName(dropTrace, n0, owner, s);
      ghost var moved := nodes[s].parent != Some(owner);
      ClearSlotName(owner, name);
      assert View() == ClearNamed(old(View()), owner, name);
      AttachSlot(owner, s, name, moved);
    }

    /** The rest of `addSlot` once the slots of the same name are gone. */
    method AttachSlot(owner: Id, s: Id, ghost name: string, ghost moved: bool)
      requires Valid() && owner in nodes && s in nodes
      requires IsSlot(nodes[s]) && !InSubtree(nodes, owner, s) && SlotName(nodes[s]) == name
      requires moved == (nodes[s].parent != Some(owner))
      requires forall t | t in nodes[owner].slots :: t in nodes && SlotName(nodes[t]) != name
      modifies this`nodes, this`groups, this`nextGroup, this`willPurge, this`dropTrace
      ensures Valid() && nodes.Keys == old(nodes).Keys
      ensures View() == ReparentAndPush(old(View()), owner, s)
      ensures nodes[s].parent == Some(owner)
      ensures nodes[owner].slots == old(nodes)[owner].slots + [s]
      ensures forall t | t in nodes[owner].slots && t != s :: t in nodes && SlotName(nodes[t]) != SlotName(nodes[s])
      ensures willPurge == (if moved then old(willPurge) - {s} else old(willPurge))
      ensures dropTrace == SetParentTrace(old(dropTrace), old(nodes), s, Some(owner), true)
    {
      ghost var n1 := nodes;
      ReparentSlot(owner, s);
      PushedSlotUnique(n1, nodes, owner, s, name);
      PushSlot(owner, s);
    }

    /** `slotNode.internalSetParent(this, true)` inside `addSlot`: the slot ends up linked to
        the owner and listed nowhere, the owner and every registered name as they were. */
    method ReparentSlot(owner: Id, s: Id)
      requires Valid() && owner in nodes && s in nodes
      requires IsSlot(nodes[s]) && !InSubtree(nodes, owner, s)
      requires s !in nodes[owner].slots
      modifies this`nodes, this`groups, this`nextGroup, this`willPurge, this`dropTrace
      ensures Valid() && nodes.Keys == old(nodes).Keys
      ensures View() == SetParentSpec(old(View()), s, Some(owner))
      ensures nodes[s].parent == Some(owner) && IsSlot(nodes[s])
      ensures nodes[owner] == old(nodes)[owner]
      ensures forall y | y in nodes :: s !in nodes[y].slots
      ensures forall x | x in nodes :: SlotName(nodes[x]) == SlotName(old(nodes)[x])
      ensures willPurge == (if old(nodes)[s].parent != Some(owner) then old(willPurge) - {s} else old(willPurge))
      ensures dropTrace == SetParentTrace(old(dropTrace), old(nodes), s, Some(owner), true)
    {
      SetParentKeeps(View(), s, Some(owner));
      SetParentFrame(View(), s, Some(owner));
      SetParentKeepsNames(View(), s, Some(owner));
      InternalSetParent(s, Some(owner), true);
      forall y | y in nodes ensures s !in nodes[y].slots {
        assert Linked(nodes, y);
      }
    }
  }
}
