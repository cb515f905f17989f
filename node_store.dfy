/** Store-level structure of the node tree: the single-parent invariant, index and sibling
    lookup, the exclusive-group join rule and the effect of re-parenting. */
module NodeStore {
  import opened Values
  import opened Sequences
  import opened NodeRecords
  import opened TreePosition

  // ---- well-formedness

  /** The ordered children and the slots of `x` point back to `x`; a Leaf has no children;
      children are never slot nodes and slots always are; neither list repeats a node. */
  ghost predicate Linked(nodes: Store, x: Id)
    requires x in nodes
  {
    var r := nodes[x];
    && (IsLeaf(r) ==> r.children == [])
    && NoDup(r.children)
    && NoDup(r.slots)
    && (forall c | c in r.children :: c in nodes && nodes[c].parent == Some(x) && !IsSlot(nodes[c]))
    && (forall s | s in r.slots :: s in nodes && nodes[s].parent == Some(x) && IsSlot(nodes[s]))
  }

  /** The tree invariant. Being listed implies the parent link; the converse is not kept,
      because detaching a node (`internalSetParent(null)`) leaves its `parent` in place. */
  ghost predicate Wf(nodes: Store) {
    && Acyclic(nodes)
    && forall x {:trigger Linked(nodes, x)} | x in nodes :: Linked(nodes, x)
  }

  /** A node is listed by at most one owner, and only by its parent. */
  lemma SingleOwner(nodes: Store, x: Id, y: Id, c: Id)
    requires Wf(nodes) && x in nodes && y in nodes
    requires (c in nodes[x].children || c in nodes[x].slots) && (c in nodes[y].children || c in nodes[y].slots)
    ensures x == y
    ensures c in nodes && nodes[c].parent == Some(x)
    ensures !(c in nodes[x].children && c in nodes[y].slots)
  {
    assert Linked(nodes, x) && Linked(nodes, y);
  }

  /** A child lies strictly deeper in the rank order than its owner. */
  lemma ChildRanked(nodes: Store, x: Id, c: Id)
    requires Wf(nodes) && x in nodes && c in nodes[x].children
    ensures c in nodes && Rank(nodes, x) < Rank(nodes, c) < Witness(nodes).1
  {
    assert Linked(nodes, x);
    ParentRanked(nodes, c);
  }

  /** Two stores with the same parent links, lists, names and slot flags are equally
      well-formed. */
  lemma SameLinksKeepWf(nodes: Store, nodes': Store)
    requires Wf(nodes)
    requires nodes'.Keys == nodes.Keys
    requires forall x | x in nodes ::
      && nodes'[x].parent == nodes[x].parent
      && nodes'[x].children == nodes[x].children
      && nodes'[x].slots == nodes[x].slots
      && nodes'[x].componentName == nodes[x].componentName
      && nodes'[x].slotFor == nodes[x].slotFor
    ensures Wf(nodes')
  {
    SameParentsKeepAcyclic(nodes, nodes');
    forall x | x in nodes' ensures Linked(nodes', x) {
      assert Linked(nodes, x);
    }
  }

  // ---- index and siblings

  /** `index`: -1 without a parent, nothing when the parent is a Leaf (it has no children
      collection), otherwise the position among the parent's children (-1 if not listed). */
  function Index(nodes: Store, n: Id): (i: Option<int>)
    requires Acyclic(nodes) && n in nodes
    ensures nodes[n].parent.None? ==> i == Some(-1)
    ensures i.Some? ==> -1 <= i.value
  {
    match nodes[n].parent
    case None => Some(-1)
    case Some(q) =>
      ParentRanked(nodes, n);
      if IsLeaf(nodes[q]) then None else Some(IndexOf(nodes[q].children, n))
  }

  /** `nextSibling`. */
  function NextSibling(nodes: Store, n: Id): Option<Id>
    requires Acyclic(nodes) && n in nodes
  {
    match nodes[n].parent
    case None => None
    case Some(q) =>
      ParentRanked(nodes, n);
      var i := Index(nodes, n);
      if i.None? || i.value < 0 then None else ElementAt(nodes[q].children, i.value + 1)
  }

  /** `prevSibling`. */
  function PrevSibling(nodes: Store, n: Id): Option<Id>
    requires Acyclic(nodes) && n in nodes
  {
    match nodes[n].parent
    case None => None
    case Some(q) =>
      ParentRanked(nodes, n);
      var i := Index(nodes, n);
      if i.None? || i.value < 1 then None else ElementAt(nodes[q].children, i.value - 1)
  }

  /** A non-negative index is the node's position in its parent's children, and a node its
      parent lists has one. */
  lemma IndexMeaning(nodes: Store, n: Id)
    requires Wf(nodes) && n in nodes
    ensures Index(nodes, n).Some? && Index(nodes, n).value >= 0 ==>
      && nodes[n].parent.Some?
      && nodes[n].parent.value in nodes
      && Index(nodes, n).value < |nodes[nodes[n].parent.value].children|
      && nodes[nodes[n].parent.value].children[Index(nodes, n).value] == n
    ensures (nodes[n].parent.Some? && nodes[n].parent.value in nodes &&
             n in nodes[nodes[n].parent.value].children) ==>
      Index(nodes, n).Some? && Index(nodes, n).value >= 0
  {
    if nodes[n].parent.Some? {
      assert Linked(nodes, nodes[n].parent.value);
    }
  }

  /** A listed child's index is its position. */
  lemma IndexOfListed(nodes: Store, q: Id, k: int)
    requires Wf(nodes) && q in nodes && 0 <= k < |nodes[q].children|
    ensures nodes[q].children[k] in nodes
    ensures Index(nodes, nodes[q].children[k]) == Some(k)
  {
    assert Linked(nodes, q);
    var c := nodes[q].children[k];
    var j := IndexOf(nodes[q].children, c);
    assert nodes[q].children[j] == c;
  }

  /** Siblings are adjacent from both sides: the previous sibling of `n` is `s` exactly when
      the next sibling of `s` is `n`. */
  lemma SiblingsAdjacent(nodes: Store, n: Id, s: Id)
    requires Wf(nodes) && n in nodes && s in nodes
    ensures PrevSibling(nodes, n) == Some(s) <==> NextSibling(nodes, s) == Some(n)
  {
    if PrevSibling(nodes, n) == Some(s) {
      var q := nodes[n].parent.value;
      var i := Index(nodes, n).value;
      IndexMeaning(nodes, n);
      IndexOfListed(nodes, q, i - 1);
      IndexOfListed(nodes, q, i);
      assert Linked(nodes, q);
    }
    if NextSibling(nodes, s) == Some(n) {
      var q := nodes[s].parent.value;
      var j := Index(nodes, s).value;
      IndexMeaning(nodes, s);
      IndexOfListed(nodes, q, j + 1);
      IndexOfListed(nodes, q, j);
      assert Linked(nodes, q);
    }
  }

  /** A sibling is another child of the same parent. */
  lemma SiblingsShareParent(nodes: Store, n: Id)
    requires Wf(nodes) && n in nodes
    ensures NextSibling(nodes, n).Some? ==>
      var s := NextSibling(nodes, n).value;
      s in nodes && s != n && nodes[s].parent == nodes[n].parent
    ensures PrevSibling(nodes, n).Some? ==>
      var s := PrevSibling(nodes, n).value;
      s in nodes && s != n && nodes[s].parent == nodes[n].parent
  {
    if nodes[n].parent.Some? && Index(nodes, n).Some? && Index(nodes, n).value >= 0 {
      var q := nodes[n].parent.value;
      var i := Index(nodes, n).value;
      IndexMeaning(nodes, n);
      assert Linked(nodes, q);
    }
  }

  // ---- exclusive groups

  /** Group bookkeeping: ids below the allocation counter, members are nodes that point at
      the group, and every node's group lists it. */
  ghost predicate GroupsOk(nodes: Store, groups: map<GroupId, ExclusiveGroup>, nextGroup: GroupId) {
    && (forall g | g in groups :: g < nextGroup)
    && (forall g, m | g in groups && m in groups[g].members :: m in nodes && nodes[m].conditionGroup == Some(g))
    && (forall x | x in nodes && nodes[x].conditionGroup.Some? ::
          nodes[x].conditionGroup.value in groups && x in groups[nodes[x].conditionGroup.value].members)
  }

  /** `node?.conditionGroup?.name`. */
  function GroupName(nodes: Store, groups: map<GroupId, ExclusiveGroup>, n: Option<Id>): Option<string> {
    if n.Some? && n.value in nodes && nodes[n.value].conditionGroup.Some?
       && nodes[n.value].conditionGroup.value in groups
    then Some(groups[nodes[n.value].conditionGroup.value].name)
    else None
  }

  /** The group a node named `name` joins: the previous sibling's group when its name matches,
      else the next sibling's, else none (a new group is created). */
  function ResolveGroup(nodes: Store, groups: map<GroupId, ExclusiveGroup>, n: Id, name: string): (g: Option<GroupId>)
    requires Acyclic(nodes) && n in nodes
    ensures g.Some? ==> g.value in groups && groups[g.value].name == name
  {
    var prev := PrevSibling(nodes, n);
    var next := NextSibling(nodes, n);
    if GroupName(nodes, groups, prev) == Some(name) then nodes[prev.value].conditionGroup
    else if GroupName(nodes, groups, next) == Some(name) then nodes[next.value].conditionGroup
    else None
  }

  /** The argument of `setConditionGroup`: null, a group name, or an ExclusiveGroup object. */
  datatype GroupArg = NoGroup | Named(name: string) | GroupObject(group: GroupId)

  /** The state `setConditionGroup` works on. */
  datatype GroupView = GroupView(nodes: Store, groups: map<GroupId, ExclusiveGroup>, nextGroup: GroupId)

  ghost predicate GroupViewOk(v: GroupView) {
    Wf(v.nodes) && GroupsOk(v.nodes, v.groups, v.nextGroup)
  }

  /** The node leaves its current group (`_conditionGroup.remove(this)`, then null). */
  function LeaveGroup(v: GroupView, n: Id): (v': GroupView)
    requires n in v.nodes
    requires v.nodes[n].conditionGroup.Some? ==> v.nodes[n].conditionGroup.value in v.groups
    ensures v'.nodes.Keys == v.nodes.Keys && v'.groups.Keys == v.groups.Keys && v'.nextGroup == v.nextGroup
  {
    var r := v.nodes[n];
    match r.conditionGroup
    case None => v
    case Some(g) =>
      v.(nodes := v.nodes[n := r.(conditionGroup := None)],
         groups := v.groups[g := v.groups[g].(members := v.groups[g].members - {n})])
  }

  /** `new ExclusiveGroup(name)`: an empty group under a fresh id. */
  function Allocate(v: GroupView, name: string): (v': GroupView)
    ensures v'.nodes == v.nodes && v'.groups.Keys == v.groups.Keys + {v.nextGroup}
  {
    v.(groups := v.groups[v.nextGroup := ExclusiveGroup(name, {})], nextGroup := v.nextGroup + 1)
  }

  /** The node joins group `g` (`_conditionGroup = grp; grp.add(this)`). */
  function EnterGroup(v: GroupView, n: Id, g: GroupId): (v': GroupView)
    requires n in v.nodes && g in v.groups
    ensures v'.nodes.Keys == v.nodes.Keys && v'.groups.Keys == v.groups.Keys && v'.nextGroup == v.nextGroup
  {
    v.(nodes := v.nodes[n := v.nodes[n].(conditionGroup := Some(g))],
       groups := v.groups[g := v.groups[g].(members := v.groups[g].members + {n})])
  }

  /** Sets the node's extra props. */
  function WithExtras(v: GroupView, n: Id, e: map<string, Value>): (v': GroupView)
    requires n in v.nodes
    ensures v'.nodes.Keys == v.nodes.Keys && v'.groups == v.groups && v'.nextGroup == v.nextGroup
    ensures v'.nodes[n].conditionGroup == v.nodes[n].conditionGroup
  {
    v.(nodes := v.nodes[n := v.nodes[n].(extras := e)])
  }

  lemma LeaveGroupOk(v: GroupView, n: Id)
    requires GroupsOk(v.nodes, v.groups, v.nextGroup) && n in v.nodes
    ensures GroupsOk(LeaveGroup(v, n).nodes, LeaveGroup(v, n).groups, LeaveGroup(v, n).nextGroup)
    ensures LeaveGroup(v, n).nodes[n].conditionGroup.None?
    ensures forall g | g in LeaveGroup(v, n).groups :: n !in LeaveGroup(v, n).groups[g].members
  {
    var v' := LeaveGroup(v, n);
    forall g | g in v'.groups ensures n !in v'.groups[g].members {
      if n in v.groups[g].members {
        assert v.nodes[n].conditionGroup == Some(g);
      }
    }
  }

  lemma AllocateOk(v: GroupView, name: string)
    requires GroupsOk(v.nodes, v.groups, v.nextGroup)
    ensures GroupsOk(Allocate(v, name).nodes, Allocate(v, name).groups, Allocate(v, name).nextGroup)
    ensures v.nextGroup !in v.groups
    ensures Allocate(v, name).groups[v.nextGroup] == ExclusiveGroup(name, {})
  {
  }

  lemma EnterGroupOk(v: GroupView, n: Id, g: GroupId)
    requires GroupsOk(v.nodes, v.groups, v.nextGroup) && n in v.nodes && g in v.groups
    requires v.nodes[n].conditionGroup.None?
    ensures GroupsOk(EnterGroup(v, n, g).nodes, EnterGroup(v, n, g).groups, EnterGroup(v, n, g).nextGroup)
    ensures EnterGroup(v, n, g).groups[g].members == v.groups[g].members + {n}
  {
  }

  /** Changes confined to group fields and extras leave the links, hence `Wf`, as they were. */
  lemma GroupStepLinks(v: GroupView, v': GroupView, n: Id)
    requires Wf(v.nodes) && n in v.nodes && n in v'.nodes
    requires v'.nodes == v.nodes[n := v.nodes[n].(extras := v'.nodes[n].extras, conditionGroup := v'.nodes[n].conditionGroup)]
    ensures Wf(v'.nodes)
  {
    SameLinksKeepWf(v.nodes, v'.nodes);
  }

  /** The whole effect of `setConditionGroup(arg)` on node `n`. An empty or missing name
      detaches the node and deletes the `conditionGroup` extra; a name joins the resolved or a
      new group unless the node is in it already, recording the name in the extra; a group
      object changes nothing. */
  function SetConditionGroupSpec(v: GroupView, n: Id, arg: GroupArg): GroupView
    requires GroupViewOk(v) && n in v.nodes
  {
    if arg.GroupObject? then v
    else if arg.NoGroup? || arg.name == "" then DetachSpec(v, n)
    else JoinSpec(v, n, arg.name)
  }

  /** The detaching branch: the node leaves its group and loses the `conditionGroup` extra. */
  function DetachSpec(v: GroupView, n: Id): GroupView
    requires GroupViewOk(v) && n in v.nodes
  {
    LeaveGroup(WithExtras(v, n, v.nodes[n].extras - {"conditionGroup"}), n)
  }

  /** The joining branch: the group `name` resolves to among the siblings, or a new one. */
  function JoinSpec(v: GroupView, n: Id, name: string): GroupView
    requires GroupViewOk(v) && n in v.nodes
  {
    var r := v.nodes[n];
    var found := ResolveGroup(v.nodes, v.groups, n, name);
    var g := if found.Some? then found.value else v.nextGroup;
    var v0 := if found.Some? then v else Allocate(v, name);
    if r.conditionGroup == Some(g) then v
    else
      EnterGroup(LeaveGroup(WithExtras(v0, n, r.extras["conditionGroup" := Str(v0.groups[g].name)]), n), n, g)
  }

  /** `nodes'` is `nodes` with at most the extras and the group of `n` changed. */
  ghost predicate OnlyGroupFields(nodes: Store, nodes': Store, n: Id) {
    && n in nodes && n in nodes'
    && nodes' == nodes[n := nodes[n].(extras := nodes'[n].extras, conditionGroup := nodes'[n].conditionGroup)]
    && nodes'[n].extras - {"conditionGroup"} == nodes[n].extras - {"conditionGroup"}
  }

  /** Setting extras leaves the group bookkeeping as it was. */
  lemma WithExtrasGroupsOk(v: GroupView, n: Id, e: map<string, Value>)
    requires GroupsOk(v.nodes, v.groups, v.nextGroup) && n in v.nodes
    ensures GroupsOk(WithExtras(v, n, e).nodes, v.groups, v.nextGroup)
  {
  }

  /** `setConditionGroup` keeps the tree and the group bookkeeping consistent, and touches no
      node but `n`, and of `n` only its group and its `conditionGroup` extra. */
  lemma SetConditionGroupKeeps(v: GroupView, n: Id, arg: GroupArg)
    requires GroupViewOk(v) && n in v.nodes
    ensures GroupViewOk(SetConditionGroupSpec(v, n, arg))
    ensures OnlyGroupFields(v.nodes, SetConditionGroupSpec(v, n, arg).nodes, n)
  {
    if arg.GroupObject? {
      assert v.nodes[n := v.nodes[n]] == v.nodes;
    } else if arg.NoGroup? || arg.name == "" {
      DetachKeeps(v, n);
    } else {
      JoinKeeps(v, n, arg.name);
    }
  }

  lemma DetachKeeps(v: GroupView, n: Id)
    requires GroupViewOk(v) && n in v.nodes
    ensures GroupViewOk(DetachSpec(v, n)) && OnlyGroupFields(v.nodes, DetachSpec(v, n).nodes, n)
    ensures DetachSpec(v, n).nodes[n].extras == v.nodes[n].extras - {"conditionGroup"}
  {
    var e := v.nodes[n].extras - {"conditionGroup"};
    var w := WithExtras(v, n, e);
    var v' := LeaveGroup(w, n);
    DetachShape(v, n);
    WithExtrasGroupsOk(v, n, e);
    LeaveGroupOk(w, n);
    GroupStepLinks(v, v', n);
    assert e - {"conditionGroup"} == e;
  }

  lemma JoinKeeps(v: GroupView, n: Id, name: string)
    requires GroupViewOk(v) && n in v.nodes
    ensures GroupViewOk(JoinSpec(v, n, name)) && OnlyGroupFields(v.nodes, JoinSpec(v, n, name).nodes, n)
  {
    var found := ResolveGroup(v.nodes, v.groups, n, name);
    var g := if found.Some? then found.value else v.nextGroup;
    var v0 := if found.Some? then v else Allocate(v, name);
    if v.nodes[n].conditionGroup != Some(g) {
      if found.None? {
        AllocateOk(v, name);
      }
      MoveKeeps(v, v0, n, g);
    } else {
      assert v.nodes[n := v.nodes[n]] == v.nodes;
    }
  }

  lemma DetachShape(v: GroupView, n: Id)
    requires n in v.nodes
    requires v.nodes[n].conditionGroup.Some? ==> v.nodes[n].conditionGroup.value in v.groups
    ensures var e := v.nodes[n].extras - {"conditionGroup"};
      var v' := LeaveGroup(WithExtras(v, n, e), n);
      v'.nodes == v.nodes[n := v.nodes[n].(extras := e, conditionGroup := None)]
  {
  }

  /** Leaving the current group for `g` of `v0` (which is `v`, or `v` with one group added). */
  lemma MoveKeeps(v: GroupView, v0: GroupView, n: Id, g: GroupId)
    requires Wf(v.nodes) && n in v.nodes
    requires GroupsOk(v0.nodes, v0.groups, v0.nextGroup) && v0.nodes == v.nodes && g in v0.groups
    ensures var e := v.nodes[n].extras["conditionGroup" := Str(v0.groups[g].name)];
      var v' := EnterGroup(LeaveGroup(WithExtras(v0, n, e), n), n, g);
      GroupViewOk(v') && OnlyGroupFields(v.nodes, v'.nodes, n)
  {
    var e := v.nodes[n].extras["conditionGroup" := Str(v0.groups[g].name)];
    var v' := EnterGroup(LeaveGroup(WithExtras(v0, n, e), n), n, g);
    MoveShape(v0, n, g);
    MoveGroupsOk(v0, n, g);
    GroupStepLinks(v, v', n);
    ExtrasBesideGroup(v.nodes[n].extras, Str(v0.groups[g].name));
  }

  lemma ExtrasBesideGroup(e: map<string, Value>, x: Value)
    ensures e["conditionGroup" := x] - {"conditionGroup"} == e - {"conditionGroup"}
  {
    assert (e["conditionGroup" := x] - {"conditionGroup"}).Keys == (e - {"conditionGroup"}).Keys;
  }

  lemma MoveShape(v0: GroupView, n: Id, g: GroupId)
    requires n in v0.nodes && g in v0.groups
    requires v0.nodes[n].conditionGroup.Some? ==> v0.nodes[n].conditionGroup.value in v0.groups
    ensures var e := v0.nodes[n].extras["conditionGroup" := Str(v0.groups[g].name)];
      var v' := EnterGroup(LeaveGroup(WithExtras(v0, n, e), n), n, g);
      v'.nodes == v0.nodes[n := v0.nodes[n].(extras := e, conditionGroup := Some(g))]
  {
  }

  lemma MoveGroupsOk(v0: GroupView, n: Id, g: GroupId)
    requires GroupsOk(v0.nodes, v0.groups, v0.nextGroup) && n in v0.nodes && g in v0.groups
    ensures var e := v0.nodes[n].extras["conditionGroup" := Str(v0.groups[g].name)];
      var v' := EnterGroup(LeaveGroup(WithExtras(v0, n, e), n), n, g);
      GroupsOk(v'.nodes, v'.groups, v'.nextGroup)
  {
    var e := v0.nodes[n].extras["conditionGroup" := Str(v0.groups[g].name)];
    var w := WithExtras(v0, n, e);
    WithExtrasGroupsOk(v0, n, e);
    LeaveGroupOk(w, n);
    EnterGroupOk(LeaveGroup(w, n), n, g);
  }

  /** The join rule. Detaching leaves the node in no group and removes the extra; a name puts
      the node in a group of that name, preferring the previous sibling's group, then the next
      sibling's, and otherwise a group freshly allocated for it alone. */
  lemma SetConditionGroupMeaning(v: GroupView, n: Id, arg: GroupArg)
    requires GroupViewOk(v) && n in v.nodes
    ensures arg.GroupObject? ==> SetConditionGroupSpec(v, n, arg) == v
    ensures arg.NoGroup? || (arg.Named? && arg.name == "") ==>
      var v' := SetConditionGroupSpec(v, n, arg);
      && v'.nodes[n].conditionGroup.None?
      && "conditionGroup" !in v'.nodes[n].extras
      && (forall g | g in v'.groups :: n !in v'.groups[g].members)
    ensures arg.Named? && arg.name != "" ==> JoinMeaning(v, n, arg.name, SetConditionGroupSpec(v, n, arg))
  {
    if arg.GroupObject? {
    } else if arg.NoGroup? || arg.name == "" {
      DetachMeaning(v, n);
    } else {
      JoinResult(v, n, arg.name);
    }
  }

  /** Detaching leaves the node in no group and without the extra. */
  lemma DetachMeaning(v: GroupView, n: Id)
    requires GroupViewOk(v) && n in v.nodes
    ensures var v' := DetachSpec(v, n);
      && v'.nodes[n].conditionGroup.None?
      && "conditionGroup" !in v'.nodes[n].extras
      && (forall g | g in v'.groups :: n !in v'.groups[g].members)
  {
    var w := WithExtras(v, n, v.nodes[n].extras - {"conditionGroup"});
    WithExtrasGroupsOk(v, n, v.nodes[n].extras - {"conditionGroup"});
    LeaveGroupOk(w, n);
  }

  /** What joining the group `name` means for the resulting state `v'`. */
  ghost predicate JoinMeaning(v: GroupView, n: Id, name: string, v': GroupView)
    requires GroupViewOk(v) && n in v.nodes
  {
    var prev := PrevSibling(v.nodes, n);
    var next := NextSibling(v.nodes, n);
    && n in v'.nodes
    && v'.nodes[n].conditionGroup.Some?
    && v'.nodes[n].conditionGroup.value in v'.groups
    && v'.groups[v'.nodes[n].conditionGroup.value].name == name
    && n in v'.groups[v'.nodes[n].conditionGroup.value].members
    && (GroupName(v.nodes, v.groups, prev) == Some(name) ==>
          v'.nodes[n].conditionGroup == v.nodes[prev.value].conditionGroup)
    && (GroupName(v.nodes, v.groups, prev) != Some(name) && GroupName(v.nodes, v.groups, next) == Some(name) ==>
          v'.nodes[n].conditionGroup == v.nodes[next.value].conditionGroup)
    && (GroupName(v.nodes, v.groups, prev) != Some(name) && GroupName(v.nodes, v.groups, next) != Some(name) ==>
          && v'.nodes[n].conditionGroup == Some(v.nextGroup)
          && v'.groups[v.nextGroup].members == {n}
          && v'.nextGroup == v.nextGroup + 1)
  }

  /** Joining by name lands in the previous sibling's group of that name, else the next
      sibling's, else a new group of its own. */
  lemma JoinResult(v: GroupView, n: Id, name: string)
    requires GroupViewOk(v) && n in v.nodes
    ensures JoinMeaning(v, n, name, JoinSpec(v, n, name))
  {
    var r := v.nodes[n];
    var found := ResolveGroup(v.nodes, v.groups, n, name);
    var g := if found.Some? then found.value else v.nextGroup;
    var v0 := if found.Some? then v else Allocate(v, name);
    if found.None? {
      AllocateOk(v, name);
    }
    if r.conditionGroup != Some(g) {
      MoveToGroup(v0, n, g, r.extras["conditionGroup" := Str(v0.groups[g].name)]);
    } else {
      assert found.Some?;
    }
  }

  /** Leaving the old group and entering `g` puts the node in `g`, which keeps its name and is
      `{n}` when it was empty. */
  lemma MoveToGroup(v: GroupView, n: Id, g: GroupId, e: map<string, Value>)
    requires GroupsOk(v.nodes, v.groups, v.nextGroup) && n in v.nodes && g in v.groups
    ensures var v' := EnterGroup(LeaveGroup(WithExtras(v, n, e), n), n, g);
      && v'.nodes[n].conditionGroup == Some(g)
      && g in v'.groups && v'.groups[g].name == v.groups[g].name && n in v'.groups[g].members
      && v'.nextGroup == v.nextGroup
      && (v.groups[g].members == {} ==> v'.groups[g].members == {n})
  {
    var w := WithExtras(v, n, e);
    WithExtrasGroupsOk(v, n, e);
    LeaveGroupOk(w, n);
    EnterGroupOk(LeaveGroup(w, n), n, g);
  }

  /** The initial-group step of `internalSetParent`: a node in no group joins the one its
      `conditionGroup` extra names, if that name is not empty. */
  function RecoverGroupSpec(v: GroupView, n: Id): GroupView
    requires GroupViewOk(v) && n in v.nodes
  {
    var name := AsString(Lookup(v.nodes[n].extras, "conditionGroup"));
    if v.nodes[n].conditionGroup.None? && name != "" then SetConditionGroupSpec(v, n, Named(name)) else v
  }

  /** A node that recovers its group ends up in a group carrying the name its extra gave, and
      a node already in a group, or with no name recorded, is left alone. */
  lemma RecoverGroupMeaning(v: GroupView, n: Id)
    requires GroupViewOk(v) && n in v.nodes
    ensures var name := AsString(Lookup(v.nodes[n].extras, "conditionGroup"));
      var v' := RecoverGroupSpec(v, n);
      && GroupViewOk(v')
      && (v.nodes[n].conditionGroup.Some? || name == "" ==> v' == v)
      && (v.nodes[n].conditionGroup.None? && name != "" ==>
            && v'.nodes[n].conditionGroup.Some?
            && v'.nodes[n].conditionGroup.value in v'.groups
            && v'.groups[v'.nodes[n].conditionGroup.value].name == name
            && "conditionGroup" in v'.nodes[n].extras
            && v'.nodes[n].extras["conditionGroup"] == Str(name))
  {
    var name := AsString(Lookup(v.nodes[n].extras, "conditionGroup"));
    RecoverKeeps(v, n);
    if v.nodes[n].conditionGroup.None? && name != "" {
      JoinResult(v, n, name);
    }
  }

  // ---- re-parenting

  /** `n` taken out of its old parent's slots (a slot node) or children; no link changes. */
  function Unlink(nodes: Store, n: Id): (nodes': Store)
    requires n in nodes
    ensures nodes'.Keys == nodes.Keys
  {
    var r := nodes[n];
    if r.parent.Some? && r.parent.value in nodes then
      var q := r.parent.value;
      var qr := nodes[q];
      if IsSlot(r) then nodes[q := qr.(slots := RemoveFirst(qr.slots, n))]
      else nodes[q := qr.(children := RemoveFirst(qr.children, n))]
    else nodes
  }

  /** Unlinking keeps the tree well-formed, leaves every parent link alone and lists `n`
      nowhere afterwards. */
  lemma UnlinkKeeps(nodes: Store, n: Id)
    requires Wf(nodes) && n in nodes
    ensures Wf(Unlink(nodes, n))
    ensures forall x | x in nodes :: Unlink(nodes, n)[x].parent == nodes[x].parent
    ensures forall x | x in nodes :: n !in Unlink(nodes, n)[x].children && n !in Unlink(nodes, n)[x].slots
  {
    var u := Unlink(nodes, n);
    SameParentsKeepAcyclic(nodes, u);
    forall x | x in nodes ensures Linked(u, x) && n !in u[x].children && n !in u[x].slots {
      UnlinkAt(nodes, n, x);
    }
  }

  /** The old parent loses exactly `n` from the one list that held it (its slots for a slot
      node, its children otherwise), and every other node is as it was. */
  lemma UnlinkFrame(nodes: Store, n: Id)
    requires n in nodes
    requires nodes[n].parent.Some? ==> nodes[n].parent.value in nodes
    ensures forall x | x in nodes && Some(x) != nodes[n].parent :: Unlink(nodes, n)[x] == nodes[x]
    ensures nodes[n].parent.Some? ==>
      var q := nodes[n].parent.value;
      var u := Unlink(nodes, n);
      && u[q].children == (if IsSlot(nodes[n]) then nodes[q].children else RemoveFirst(nodes[q].children, n))
      && u[q].slots == (if IsSlot(nodes[n]) then RemoveFirst(nodes[q].slots, n) else nodes[q].slots)
      && u[q] == nodes[q].(children := u[q].children, slots := u[q].slots)
  {
  }

  /** One node's lists after unlinking `n`. */
  lemma UnlinkAt(nodes: Store, n: Id, x: Id)
    requires Wf(nodes) && n in nodes && x in nodes
    ensures Linked(Unlink(nodes, n), x)
    ensures n !in Unlink(nodes, n)[x].children && n !in Unlink(nodes, n)[x].slots
  {
    if Some(x) == nodes[n].parent {
      UnlinkAtOwner(nodes, n, x);
    } else {
      UnlinkAtOther(nodes, n, x);
    }
  }

  lemma UnlinkAtOwner(nodes: Store, n: Id, x: Id)
    requires Wf(nodes) && n in nodes && x in nodes && Some(x) == nodes[n].parent
    ensures Linked(Unlink(nodes, n), x)
    ensures n !in Unlink(nodes, n)[x].children && n !in Unlink(nodes, n)[x].slots
  {
    var r := nodes[x];
    assert Linked(nodes, x);
    if IsSlot(nodes[n]) {
      RemoveFirstNoDup(r.slots, n);
      assert Unlink(nodes, n)[x] == r.(slots := RemoveFirst(r.slots, n));
      assert n !in r.children;
    } else {
      RemoveFirstNoDup(r.children, n);
      assert Unlink(nodes, n)[x] == r.(children := RemoveFirst(r.children, n));
      assert n !in r.slots;
    }
  }

  lemma UnlinkAtOther(nodes: Store, n: Id, x: Id)
    requires Wf(nodes) && n in nodes && x in nodes && Some(x) != nodes[n].parent
    ensures Linked(Unlink(nodes, n), x)
    ensures n !in Unlink(nodes, n)[x].children && n !in Unlink(nodes, n)[x].slots
  {
    var u := Unlink(nodes, n);
    assert u[x] == nodes[x];
    assert Linked(nodes, x);
  }

  /** No node lists `n` among its children or slots. */
  ghost predicate Unlisted(nodes: Store, n: Id) {
    forall x | x in nodes :: n !in nodes[x].children && n !in nodes[x].slots
  }

  /** `this._parent = parent`. */
  function Link(nodes: Store, n: Id, p: Id): (nodes': Store)
    requires n in nodes
    ensures nodes'.Keys == nodes.Keys
  {
    nodes[n := nodes[n].(parent := Some(p))]
  }

  /** Linking an unlisted node under a node outside its subtree keeps the tree and the groups
      consistent. */
  lemma LinkKeeps(v: GroupView, n: Id, p: Id)
    requires GroupViewOk(v) && n in v.nodes && p in v.nodes
    requires !InSubtree(v.nodes, p, n) && Unlisted(v.nodes, n)
    ensures GroupViewOk(v.(nodes := Link(v.nodes, n, p)))
  {
    var nodes' := Link(v.nodes, n, p);
    ReparentKeepsAcyclic(v.nodes, nodes', n, p);
    forall x | x in nodes' ensures Linked(nodes', x) {
      LinkAt(v.nodes, n, p, x);
    }
    SameGroupFieldsOk(v.nodes, nodes', v.groups, v.nextGroup);
  }

  /** One node's lists after linking an unlisted `n`: the same lists, still consistent. */
  lemma LinkAt(nodes: Store, n: Id, p: Id, x: Id)
    requires Wf(nodes) && n in nodes && x in nodes && Unlisted(nodes, n)
    ensures Linked(Link(nodes, n, p), x)
  {
    var nodes' := Link(nodes, n, p);
    assert Linked(nodes, x);
    assert n !in nodes[x].children && n !in nodes[x].slots;
    assert nodes'[x].children == nodes[x].children && nodes'[x].slots == nodes[x].slots;
  }

  /** The second half of `internalSetParent(p)` on an unlinked node: the link, then the
      recovery of the initial group. */
  function AttachSpec(v: GroupView, n: Id, p: Id): GroupView
    requires GroupViewOk(v) && n in v.nodes && p in v.nodes
    requires !InSubtree(v.nodes, p, n) && Unlisted(v.nodes, n)
  {
    LinkKeeps(v, n, p);
    RecoverGroupSpec(v.(nodes := Link(v.nodes, n, p)), n)
  }

  /** Unlinking keeps what the attach step needs. */
  lemma UnlinkReady(v: GroupView, n: Id, p: Option<Id>)
    requires GroupViewOk(v) && n in v.nodes
    requires p.Some? ==> p.value in v.nodes && !InSubtree(v.nodes, p.value, n)
    ensures var u := v.(nodes := Unlink(v.nodes, n));
      && GroupViewOk(u) && Unlisted(u.nodes, n)
      && (p.Some? ==> p.value in u.nodes && !InSubtree(u.nodes, p.value, n))
  {
    var u := v.(nodes := Unlink(v.nodes, n));
    UnlinkKeeps(v.nodes, n);
    SameGroupFieldsOk(v.nodes, u.nodes, v.groups, v.nextGroup);
    if p.Some? {
      StrictAncestorFrame(v.nodes, u.nodes, n, p.value);
    }
  }

  /** Unlinking keeps the chain of ancestors above any node. */
  lemma UnlinkKeepsChain(nodes: Store, n: Id, p: Id)
    requires Wf(nodes) && n in nodes && p in nodes
    ensures Acyclic(Unlink(nodes, n)) && DropChain(Unlink(nodes, n), p) == DropChain(nodes, p)
  {
    UnlinkKeeps(nodes, n);
    DropChainFrame(nodes, Unlink(nodes, n), p);
  }

  /** Linking `n` under `p` and then touching only `n`'s group fields leaves the drop chain
      from `p` as it was. */
  lemma AttachChainKept(nodes: Store, nodes': Store, n: Id, p: Id)
    requires Acyclic(nodes) && n in nodes && p in nodes && !InSubtree(nodes, p, n)
    requires Acyclic(nodes') && OnlyGroupFields(Link(nodes, n, p), nodes', n)
    ensures p in nodes' && DropChain(nodes', p) == DropChain(nodes, p)
  {
    DropChainOutside(nodes, nodes', n, p);
  }

  /** The whole effect of `internalSetParent(p)` on the tree and the groups: nothing when `p`
      is the parent already; otherwise the node is unlinked and, when a new parent is given,
      attached to it. */
  function SetParentSpec(v: GroupView, n: Id, p: Option<Id>): GroupView
    requires GroupViewOk(v) && n in v.nodes
    requires p.Some? ==> p.value in v.nodes && !InSubtree(v.nodes, p.value, n)
  {
    if v.nodes[n].parent == p then v
    else
      var u := v.(nodes := Unlink(v.nodes, n));
      UnlinkReady(v, n, p);
      if p.None? then u else AttachSpec(u, n, p.value)
  }

  /** Recovering the initial group touches `n`'s group fields and nothing else. */
  lemma RecoverKeeps(v: GroupView, n: Id)
    requires GroupViewOk(v) && n in v.nodes
    ensures GroupViewOk(RecoverGroupSpec(v, n)) && OnlyGroupFields(v.nodes, RecoverGroupSpec(v, n).nodes, n)
  {
    var name := AsString(Lookup(v.nodes[n].extras, "conditionGroup"));
    if v.nodes[n].conditionGroup.None? && name != "" {
      JoinKeeps(v, n, name);
    } else {
      assert v.nodes[n := v.nodes[n]] == v.nodes;
    }
  }

  /** The attach step sets the link and touches nothing else but `n`'s group fields. */
  lemma AttachKeeps(u: GroupView, n: Id, p: Id)
    requires GroupViewOk(u) && n in u.nodes && p in u.nodes
    requires !InSubtree(u.nodes, p, n) && Unlisted(u.nodes, n)
    ensures var v' := AttachSpec(u, n, p);
      && GroupViewOk(v')
      && v'.nodes.Keys == u.nodes.Keys
      && (forall x | x in u.nodes && x != n :: v'.nodes[x] == u.nodes[x])
      && v'.nodes[n] == u.nodes[n].(parent := Some(p), extras := v'.nodes[n].extras,
                                    conditionGroup := v'.nodes[n].conditionGroup)
      && v'.nodes[n].extras - {"conditionGroup"} == u.nodes[n].extras - {"conditionGroup"}
  {
    var w := u.(nodes := Link(u.nodes, n, p));
    LinkKeeps(u, n, p);
    RecoverKeeps(w, n);
  }

  /** `internalSetParent` keeps the tree and the groups consistent. The same parent changes
      nothing. Otherwise the node's parent becomes `p` when `p` is given and stays what it
      was when it is not (the node is only unlinked); afterwards no node lists it; and of
      `n` itself only the parent link, the group and the `conditionGroup` extra change. */
  lemma SetParentKeeps(v: GroupView, n: Id, p: Option<Id>)
    requires GroupViewOk(v) && n in v.nodes
    requires p.Some? ==> p.value in v.nodes && !InSubtree(v.nodes, p.value, n)
    ensures var v' := SetParentSpec(v, n, p);
      && GroupViewOk(v')
      && v'.nodes.Keys == v.nodes.Keys
      && (v.nodes[n].parent == p ==> v' == v)
      && (p.Some? ==> v'.nodes[n].parent == p)
      && (p.None? ==> v'.nodes[n].parent == v.nodes[n].parent)
      && (v.nodes[n].parent != p ==> Unlisted(v'.nodes, n))
      && v'.nodes[n] == v.nodes[n].(parent := v'.nodes[n].parent, extras := v'.nodes[n].extras,
                                    conditionGroup := v'.nodes[n].conditionGroup)
      && v'.nodes[n].extras - {"conditionGroup"} == v.nodes[n].extras - {"conditionGroup"}
  {
    if v.nodes[n].parent != p {
      var u := v.(nodes := Unlink(v.nodes, n));
      UnlinkReady(v, n, p);
      UnlinkFrame(v.nodes, n);
      ParentRanked(v.nodes, n);
      if p.Some? {
        AttachKeeps(u, n, p.value);
        var v' := AttachSpec(u, n, p.value);
        forall x | x in v'.nodes ensures n !in v'.nodes[x].children && n !in v'.nodes[x].slots {
          assert x in u.nodes;
        }
      }
    }
  }

  /** Re-parenting leaves every node other than `n` and its old parent exactly as it was, and
      the old parent loses `n` from the one list that held it and nothing else. Detaching
      (`p` absent) touches no group and no extra. */
  lemma SetParentFrame(v: GroupView, n: Id, p: Option<Id>)
    requires GroupViewOk(v) && n in v.nodes
    requires p.Some? ==> p.value in v.nodes && !InSubtree(v.nodes, p.value, n)
    ensures var v' := SetParentSpec(v, n, p);
      var q := v.nodes[n].parent;
      && (forall x | x in v.nodes && x != n && Some(x) != q :: v'.nodes[x] == v.nodes[x])
      && (q.Some? && q != p ==>
            && q.value in v.nodes && q.value != n
            && v'.nodes[q.value].children ==
                 (if IsSlot(v.nodes[n]) then v.nodes[q.value].children else RemoveFirst(v.nodes[q.value].children, n))
            && v'.nodes[q.value].slots ==
                 (if IsSlot(v.nodes[n]) then RemoveFirst(v.nodes[q.value].slots, n) else v.nodes[q.value].slots)
            && v'.nodes[q.value] == v.nodes[q.value].(children := v'.nodes[q.value].children, slots := v'.nodes[q.value].slots))
      && (p.None? ==> v'.groups == v.groups && v'.nextGroup == v.nextGroup && v'.nodes[n] == v.nodes[n])
  {
    var q := v.nodes[n].parent;
    if q != p {
      ParentRanked(v.nodes, n);
      UnlinkFrame(v.nodes, n);
      UnlinkReady(v, n, p);
      if p.Some? {
        AttachKeeps(v.(nodes := Unlink(v.nodes, n)), n, p.value);
      }
    }
  }

  // ---- list edits that keep the invariant

  /** Group bookkeeping only looks at membership of the store and at each node's group. */
  lemma SameGroupFieldsOk(nodes: Store, nodes': Store, groups: map<GroupId, ExclusiveGroup>, nextGroup: GroupId)
    requires GroupsOk(nodes, groups, nextGroup)
    requires nodes'.Keys == nodes.Keys
    requires forall x | x in nodes :: nodes'[x].conditionGroup == nodes[x].conditionGroup
    ensures GroupsOk(nodes', groups, nextGroup)
  {
  }

  /** Replacing a node's lists by duplicate-free sublists keeps the tree well-formed. */
  lemma ShrinkKeepsWf(nodes: Store, x: Id, cs: seq<Id>, ss: seq<Id>)
    requires Wf(nodes) && x in nodes
    requires NoDup(cs) && NoDup(ss)
    requires forall c | c in cs :: c in nodes[x].children
    requires forall c | c in ss :: c in nodes[x].slots
    ensures Wf(nodes[x := nodes[x].(children := cs, slots := ss)])
  {
    var nodes' := nodes[x := nodes[x].(children := cs, slots := ss)];
    if |cs| > 0 {
      assert cs[0] in cs;
    }
    SameParentsKeepAcyclic(nodes, nodes');
    forall y | y in nodes' ensures Linked(nodes', y) {
      assert Linked(nodes, y);
    }
  }

  /** Dropping one slot from an owner's slots keeps the tree and the groups consistent. */
  lemma DropSlotKeeps(nodes: Store, groups: map<GroupId, ExclusiveGroup>, nextGroup: GroupId, owner: Id, s: Id)
    requires Wf(nodes) && GroupsOk(nodes, groups, nextGroup) && owner in nodes
    ensures var nodes' := nodes[owner := nodes[owner].(slots := RemoveFirst(nodes[owner].slots, s))];
      Wf(nodes') && GroupsOk(nodes', groups, nextGroup)
  {
    assert Linked(nodes, owner);
    RemoveFirstNoDup(nodes[owner].slots, s);
    ShrinkKeepsWf(nodes, owner, nodes[owner].children, RemoveFirst(nodes[owner].slots, s));
    SameGroupFieldsOk(nodes, nodes[owner := nodes[owner].(slots := RemoveFirst(nodes[owner].slots, s))], groups, nextGroup);
  }

  /** Dropping one child from an owner's children keeps the tree and the groups consistent. */
  lemma DropChildKeeps(nodes: Store, groups: map<GroupId, ExclusiveGroup>, nextGroup: GroupId, owner: Id, c: Id)
    requires Wf(nodes) && GroupsOk(nodes, groups, nextGroup) && owner in nodes
    ensures var nodes' := nodes[owner := nodes[owner].(children := RemoveFirst(nodes[owner].children, c))];
      Wf(nodes') && GroupsOk(nodes', groups, nextGroup)
  {
    assert Linked(nodes, owner);
    RemoveFirstNoDup(nodes[owner].children, c);
    ShrinkKeepsWf(nodes, owner, RemoveFirst(nodes[owner].children, c), nodes[owner].slots);
    SameGroupFieldsOk(nodes, nodes[owner := nodes[owner].(children := RemoveFirst(nodes[owner].children, c))], groups, nextGroup);
  }

  /** Appending an unlisted slot node whose parent link already points at the owner keeps the
      tree well-formed. */
  lemma AppendSlotKeepsWf(nodes: Store, x: Id, s: Id)
    requires Wf(nodes) && x in nodes && s in nodes
    requires nodes[s].parent == Some(x) && IsSlot(nodes[s])
    requires forall y | y in nodes :: s !in nodes[y].slots
    ensures Wf(nodes[x := nodes[x].(slots := nodes[x].slots + [s])])
  {
    var nodes' := nodes[x := nodes[x].(slots := nodes[x].slots + [s])];
    SameParentsKeepAcyclic(nodes, nodes');
    forall y | y in nodes' ensures Linked(nodes', y) {
      assert Linked(nodes, y);
    }
  }

  // ---- slot names

  /** The slots whose `name` extra differs from `name`, in their order (what is left after the
      slot helper removes the slots registered under `name`). */
  function RemoveNamed(nodes: Store, slots: seq<Id>, name: string): (r: seq<Id>)
    requires forall s | s in slots :: s in nodes
    ensures forall s | s in r :: s in slots && SlotName(nodes[s]) != name
    ensures forall s | s in slots && SlotName(nodes[s]) != name :: s in r
    ensures NoDup(slots) ==> NoDup(r)
  {
    if |slots| == 0 then []
    else
      var rest := RemoveNamed(nodes, slots[1..], name);
      if SlotName(nodes[slots[0]]) == name then rest else [slots[0]] + rest
  }

  /** `includeSlot(node, name)`: some slot of the list is registered under `name`. */
  predicate IncludesSlot(nodes: Store, slots: seq<Id>, name: string)
    requires forall s | s in slots :: s in nodes
  {
    exists s | s in slots :: SlotName(nodes[s]) == name
  }

  /** Without a slot of that name there is nothing to remove. */
  lemma {:induction false} RemoveNamedAbsent(nodes: Store, slots: seq<Id>, name: string)
    requires forall s | s in slots :: s in nodes
    requires !IncludesSlot(nodes, slots, name)
    ensures RemoveNamed(nodes, slots, name) == slots
  {
    if |slots| > 0 {
      assert slots[0] in slots;
      assert forall s | s in slots[1..] :: s in slots;
      RemoveNamedAbsent(nodes, slots[1..], name);
    }
  }

  // ---- record-only changes

  /** The fields of a record the invariants look at: links, kind and group. */
  predicate SameShape(r: NodeRec, r': NodeRec) {
    && r'.parent == r.parent && r'.children == r.children && r'.slots == r.slots
    && r'.componentName == r.componentName && r'.slotFor == r.slotFor
    && r'.conditionGroup == r.conditionGroup
  }

  /** Rewriting a node's record without changing its shape (its status, its purge flags, its
      props or extras) keeps the tree and the groups consistent. */
  lemma SameShapeKeepsOk(v: GroupView, n: Id, r': NodeRec)
    requires GroupViewOk(v) && n in v.nodes && SameShape(v.nodes[n], r')
    ensures GroupViewOk(v.(nodes := v.nodes[n := r']))
  {
    SameLinksKeepWf(v.nodes, v.nodes[n := r']);
    SameGroupFieldsOk(v.nodes, v.nodes[n := r'], v.groups, v.nextGroup);
  }

  /** The `name` extra, hence the slot name, is untouched by changes confined to the
      `conditionGroup` extra. */
  lemma SlotNameBesideGroup(r: NodeRec, r': NodeRec)
    requires r'.extras - {"conditionGroup"} == r.extras - {"conditionGroup"}
    ensures SlotName(r') == SlotName(r)
  {
    assert "name" in r'.extras <==> "name" in r'.extras - {"conditionGroup"};
    assert "name" in r.extras <==> "name" in r.extras - {"conditionGroup"};
    if "name" in r.extras {
      assert r.extras["name"] == (r.extras - {"conditionGroup"})["name"];
      assert r'.extras["name"] == (r'.extras - {"conditionGroup"})["name"];
    }
  }

  // ---- removal

  /** The node's parent is a parental node, the only kind that has a NodeChildren collection
      (`parent.children` is undefined on a Leaf). */
  predicate ParentHasChildren(nodes: Store, n: Id)
    requires n in nodes
  {
    var q := nodes[n].parent;
    q.Some? && q.value in nodes && IsParental(nodes[q.value])
  }

  /** The store after `remove(useMutator, purge)` of a node with a parent: the node leaves the
      one list of its parent that held it and keeps its parent link; when the parent has a
      children collection (it is not a Leaf), the node is also marked as purging, and purged
      when `purge` is set. A node without a parent is left alone. */
  function Removed(nodes: Store, n: Id, purge: bool): (nodes': Store)
    requires n in nodes
    ensures nodes'.Keys == nodes.Keys
  {
    var r := nodes[n];
    if r.parent.None? then nodes
    else if !ParentHasChildren(nodes, n) then Unlink(nodes, n)
    else Unlink(nodes, n)[n := r.(purging := true, purged := r.purged || purge)]
  }

  /** Unlinking a node its parent does not list changes nothing. */
  lemma UnlinkUnlisted(nodes: Store, n: Id)
    requires n in nodes
    requires nodes[n].parent.Some? && nodes[n].parent.value in nodes ==>
      var qr := nodes[nodes[n].parent.value];
      n !in qr.children && n !in qr.slots
    ensures Unlink(nodes, n) == nodes
  {
    var q := nodes[n].parent;
    if q.Some? && q.value in nodes {
      var qr := nodes[q.value];
      assert RemoveFirst(qr.children, n) == qr.children && RemoveFirst(qr.slots, n) == qr.slots;
      assert nodes[q.value := qr] == nodes;
    }
  }

  /** Unlinking twice is unlinking once. */
  lemma UnlinkIdempotent(nodes: Store, n: Id)
    requires Wf(nodes) && n in nodes
    ensures Unlink(Unlink(nodes, n), n) == Unlink(nodes, n)
  {
    UnlinkKeeps(nodes, n);
    UnlinkUnlisted(Unlink(nodes, n), n);
  }

  /** Updates at two different keys commute. */
  lemma UpdatesCommute(m: Store, a: Id, x: NodeRec, b: Id, y: NodeRec)
    requires a != b
    ensures m[a := x][b := y] == m[b := y][a := x]
  {
  }

  /** Unlinking reads only the node's parent link and kind, so it commutes with a change of
      the node's own record that keeps its shape. */
  lemma UnlinkRecord(nodes: Store, n: Id, r': NodeRec)
    requires Acyclic(nodes) && n in nodes && SameShape(nodes[n], r')
    ensures Unlink(nodes[n := r'], n) == Unlink(nodes, n)[n := r']
  {
    var q := nodes[n].parent;
    if q.Some? && q.value in nodes {
      ParentRanked(nodes, n);
      var p := q.value;
      assert p != n;
      var qr := nodes[p];
      var r2 := if IsSlot(nodes[n]) then qr.(slots := RemoveFirst(qr.slots, n))
                else qr.(children := RemoveFirst(qr.children, n));
      var w := nodes[n := r'];
      assert w[n].parent == q && IsSlot(w[n]) == IsSlot(nodes[n]) && w[p] == qr;
      assert Unlink(w, n) == w[p := r2];
      UpdatesCommute(nodes, n, r', p, r2);
      assert Unlink(nodes, n) == nodes[p := r2];
    }
  }


  /** Removing keeps the tree and the groups consistent and every parent link in place. */
  lemma RemovedKeeps(v: GroupView, n: Id, purge: bool)
    requires GroupViewOk(v) && n in v.nodes
    ensures GroupViewOk(v.(nodes := Removed(v.nodes, n, purge)))
    ensures forall x | x in v.nodes :: Removed(v.nodes, n, purge)[x].parent == v.nodes[x].parent
  {
    var r := v.nodes[n];
    if r.parent.Some? {
      var u := v.(nodes := Unlink(v.nodes, n));
      UnlinkReady(v, n, None);
      UnlinkKeeps(v.nodes, n);
      ParentRanked(v.nodes, n);
      if ParentHasChildren(v.nodes, n) {
        assert u.nodes[n] == r;
        SameShapeKeepsOk(u, n, r.(purging := true, purged := r.purged || purge));
        var nodes' := Removed(v.nodes, n, purge);
        forall x | x in v.nodes ensures nodes'[x].parent == v.nodes[x].parent {
          assert x != n ==> nodes'[x] == u.nodes[x];
        }
      }
    }
  }

  /** A node with a parent is listed nowhere once removed, and its own record changes only in
      its purge flags, and only under a parent with a children collection; a node without a
      parent is not removed at all. */
  lemma RemovedUnlisted(nodes: Store, n: Id, purge: bool)
    requires Wf(nodes) && n in nodes
    ensures nodes[n].parent.None? ==> Removed(nodes, n, purge) == nodes
    ensures nodes[n].parent.Some? ==>
      && Unlisted(Removed(nodes, n, purge), n)
      && Removed(nodes, n, purge)[n] ==
           if ParentHasChildren(nodes, n) then nodes[n].(purging := true, purged := nodes[n].purged || purge)
           else nodes[n]
  {
    var r := nodes[n];
    if r.parent.Some? {
      UnlinkKeeps(nodes, n);
      ParentRanked(nodes, n);
      var u := Unlink(nodes, n);
      assert u[n] == r;
      var nodes' := Removed(nodes, n, purge);
      forall x | x in nodes' ensures n !in nodes'[x].children && n !in nodes'[x].slots {
        assert n !in u[x].children && n !in u[x].slots;
      }
    }
  }

  /** Removing touches the node, and of the other nodes only its parent, which loses the node
      from the one list that held it. */
  lemma RemovedFrame(nodes: Store, n: Id, purge: bool)
    requires Wf(nodes) && n in nodes
    ensures var nodes' := Removed(nodes, n, purge);
      var q := nodes[n].parent;
      && (forall x | x in nodes && x != n && Some(x) != q :: nodes'[x] == nodes[x])
      && (q.Some? ==>
            && q.value in nodes && q.value != n
            && nodes'[q.value].children ==
                 (if IsSlot(nodes[n]) then nodes[q.value].children else RemoveFirst(nodes[q.value].children, n))
            && nodes'[q.value].slots ==
                 (if IsSlot(nodes[n]) then RemoveFirst(nodes[q.value].slots, n) else nodes[q.value].slots)
            && nodes'[q.value] == nodes[q.value].(children := nodes'[q.value].children, slots := nodes'[q.value].slots))
  {
    if nodes[n].parent.Some? {
      ParentRanked(nodes, n);
      UnlinkFrame(nodes, n);
    }
  }

  /** When the node is not among its parent's slots, unlinking it is dropping it from the
      parent's children (for a slot node, which no children list holds, that changes nothing). */
  lemma UnlinkFromChildren(nodes: Store, n: Id, q: Id)
    requires Wf(nodes) && n in nodes && q in nodes && nodes[n].parent == Some(q)
    requires n !in nodes[q].slots
    ensures Unlink(nodes, n) == nodes[q := nodes[q].(children := RemoveFirst(nodes[q].children, n))]
  {
    var qr := nodes[q];
    if IsSlot(nodes[n]) {
      assert Linked(nodes, q);
      assert n !in qr.children;
      assert qr.(children := RemoveFirst(qr.children, n)) == qr.(slots := RemoveFirst(qr.slots, n));
    }
  }

  /** Removing a node already unlinked is removing it. */
  lemma RemovedAfterUnlink(nodes: Store, n: Id, purge: bool)
    requires Wf(nodes) && n in nodes
    ensures Removed(Unlink(nodes, n), n, purge) == Removed(nodes, n, purge)
  {
    if nodes[n].parent.Some? {
      ParentRanked(nodes, n);
      UnlinkIdempotent(nodes, n);
      UnlinkFrame(nodes, n);
      assert Unlink(nodes, n)[n] == nodes[n];
      assert ParentHasChildren(Unlink(nodes, n), n) == ParentHasChildren(nodes, n);
    }
  }

  /** The purging removal in the source's three steps: start purging, unlink, mark purged. */
  lemma RemovedPurgeSteps(nodes: Store, n: Id)
    requires Wf(nodes) && n in nodes && ParentHasChildren(nodes, n)
    ensures var n1 := nodes[n := nodes[n].(purging := true)];
      var u := Unlink(n1, n);
      n in u && u[n := u[n].(purged := true)] == Removed(nodes, n, true)
  {
    var r := nodes[n];
    ParentRanked(nodes, n);
    UnlinkRecord(nodes, n, r.(purging := true));
    var u0 := Unlink(nodes, n);
    assert u0[n := r.(purging := true)][n := r.(purging := true, purged := true)]
        == u0[n := r.(purging := true, purged := true)];
  }

  /** The non-purging removal of a node its parent `q` holds among its children: start
      purging, then drop it from the children. */
  lemma RemovedKeepSteps(nodes: Store, n: Id, q: Id)
    requires Wf(nodes) && n in nodes && q in nodes && nodes[n].parent == Some(q)
    requires n !in nodes[q].slots && IsParental(nodes[q])
    ensures var n1 := nodes[n := nodes[n].(purging := true)];
      n1[q := n1[q].(children := RemoveFirst(n1[q].children, n))] == Removed(nodes, n, false)
  {
    var r := nodes[n];
    ParentRanked(nodes, n);
    UnlinkFromChildren(nodes, n, q);
    var qr := nodes[q];
    var n1 := nodes[n := r.(purging := true)];
    assert n1[q] == qr;
    assert r.(purging := true, purged := r.purged || false) == r.(purging := true);
    assert n1[q := qr.(children := RemoveFirst(qr.children, n))]
        == nodes[q := qr.(children := RemoveFirst(qr.children, n))][n := r.(purging := true)];
  }

  // ---- addSlot

  /** Dropping the owner's slots registered under a name keeps the tree and the groups
      consistent. */
  lemma DropNamedKeeps(nodes: Store, groups: map<GroupId, ExclusiveGroup>, nextGroup: GroupId, owner: Id, name: string)
    requires Wf(nodes) && GroupsOk(nodes, groups, nextGroup) && owner in nodes
    requires forall s | s in nodes[owner].slots :: s in nodes
    ensures var nodes' := nodes[owner := nodes[owner].(slots := RemoveNamed(nodes, nodes[owner].slots, name))];
      Wf(nodes') && GroupsOk(nodes', groups, nextGroup)
  {
    assert Linked(nodes, owner);
    var ss := RemoveNamed(nodes, nodes[owner].slots, name);
    ShrinkKeepsWf(nodes, owner, nodes[owner].children, ss);
    SameGroupFieldsOk(nodes, nodes[owner := nodes[owner].(slots := ss)], groups, nextGroup);
  }

  /** Re-parenting changes no node's kind and no slot's registered name. */
  lemma SetParentKeepsNames(v: GroupView, n: Id, p: Option<Id>)
    requires GroupViewOk(v) && n in v.nodes
    requires p.Some? ==> p.value in v.nodes && !InSubtree(v.nodes, p.value, n)
    ensures var v' := SetParentSpec(v, n, p);
      forall x | x in v.nodes :: x in v'.nodes && IsSlot(v'.nodes[x]) == IsSlot(v.nodes[x])
        && SlotName(v'.nodes[x]) == SlotName(v.nodes[x])
  {
    var v' := SetParentSpec(v, n, p);
    SetParentKeeps(v, n, p);
    SetParentFrame(v, n, p);
    SlotNameBesideGroup(v.nodes[n], v'.nodes[n]);
  }

  /** Appending a slot to an owner none of whose slots share its name, after a step that kept
      the owner and every registered name, leaves the owner's slot names unique. */
  lemma PushedSlotUnique(nodes: Store, nodes': Store, owner: Id, s: Id, name: string)
    requires owner in nodes && s in nodes && nodes'.Keys == nodes.Keys && nodes'[owner] == nodes[owner]
    requires forall x | x in nodes' :: SlotName(nodes'[x]) == SlotName(nodes[x])
    requires SlotName(nodes[s]) == name
    requires forall t | t in nodes[owner].slots :: t in nodes && SlotName(nodes[t]) != name
    ensures var pushed := nodes'[owner := nodes'[owner].(slots := nodes'[owner].slots + [s])];
      forall t | t in pushed[owner].slots && t != s :: t in pushed && SlotName(pushed[t]) != SlotName(pushed[s])
  {
    var pushed := nodes'[owner := nodes'[owner].(slots := nodes'[owner].slots + [s])];
    forall t | t in pushed[owner].slots && t != s
      ensures t in pushed && SlotName(pushed[t]) != SlotName(pushed[s])
    {
      assert t in nodes[owner].slots;
      assert SlotName(pushed[t]) == SlotName(nodes'[t]);
      assert SlotName(pushed[s]) == SlotName(nodes'[s]);
    }
  }

  /** Dropping the slots registered under `name` changes no parent link and no registered
      name, and leaves the owner no slot of that name. */
  lemma RemoveNamedFrame(nodes: Store, owner: Id, name: string)
    requires owner in nodes && forall t | t in nodes[owner].slots :: t in nodes
    ensures var nodes' := nodes[owner := nodes[owner].(slots := RemoveNamed(nodes, nodes[owner].slots, name))];
      && (forall x | x in nodes' :: nodes'[x].parent == nodes[x].parent && SlotName(nodes'[x]) == SlotName(nodes[x]))
      && (forall t | t in nodes'[owner].slots :: t in nodes' && SlotName(nodes'[t]) != name)
  {
  }

  // ---- addSlot on the whole view

  /** `removeSlot(this, name)` of the slot helpers on the whole state: the owner's slots
      registered under `name` are dropped (without one, nothing is, see `RemoveNamedAbsent`). */
  function ClearNamed(v: GroupView, owner: Id, name: string): (v': GroupView)
    requires Wf(v.nodes) && owner in v.nodes
    ensures v'.nodes.Keys == v.nodes.Keys && v'.groups == v.groups && v'.nextGroup == v.nextGroup
  {
    assert Linked(v.nodes, owner);
    v.(nodes := v.nodes[owner := v.nodes[owner].(slots := RemoveNamed(v.nodes, v.nodes[owner].slots, name))])
  }

  /** `slotNode.internalSetParent(this, true)` followed by `this._slots.push(slotNode)`. */
  function ReparentAndPush(v: GroupView, owner: Id, s: Id): (v': GroupView)
    requires GroupViewOk(v) && owner in v.nodes && s in v.nodes && !InSubtree(v.nodes, owner, s)
    ensures v'.nodes.Keys == v.nodes.Keys
  {
    SetParentKeeps(v, s, Some(owner));
    var w := SetParentSpec(v, s, Some(owner));
    w.(nodes := w.nodes[owner := w.nodes[owner].(slots := w.nodes[owner].slots + [s])])
  }

  /** Clearing the name of `s` keeps the invariants, `s` itself and the ancestry of the owner. */
  lemma ClearNamedKeeps(v: GroupView, owner: Id, s: Id)
    requires GroupViewOk(v) && owner in v.nodes && s in v.nodes && !InSubtree(v.nodes, owner, s)
    ensures var c := ClearNamed(v, owner, SlotName(v.nodes[s]));
      GroupViewOk(c) && c.nodes[s] == v.nodes[s] && !InSubtree(c.nodes, owner, s)
  {
    var name := SlotName(v.nodes[s]);
    assert Linked(v.nodes, owner);
    var c := ClearNamed(v, owner, name);
    DropNamedKeeps(v.nodes, v.groups, v.nextGroup, owner, name);
    RemoveNamedFrame(v.nodes, owner, name);
    SameParentsKeepAcyclic(v.nodes, c.nodes);
    StrictAncestorFrame(v.nodes, c.nodes, s, owner);
  }

  /** The whole effect of `addSlot(slotNode)`: the owner's slots named like `s` go, then `s` is
      re-parented to the owner (with the mutator) and appended to its slots. */
  function AddSlotSpec(v: GroupView, owner: Id, s: Id): (v': GroupView)
    requires GroupViewOk(v) && owner in v.nodes && s in v.nodes && !InSubtree(v.nodes, owner, s)
    ensures v'.nodes.Keys == v.nodes.Keys
  {
    ClearNamedKeeps(v, owner, s);
    ReparentAndPush(ClearNamed(v, owner, SlotName(v.nodes[s])), owner, s)
  }

  /** After `addSlot` the slot hangs under the owner; the owner keeps every field but its slots,
      which are its old slots without those of the slot's name, followed by the slot; every node
      other than the owner, the slot and the slot's old parent is as it was. */
  lemma AddSlotMeaning(v: GroupView, owner: Id, s: Id)
    requires GroupViewOk(v) && owner in v.nodes && s in v.nodes && !InSubtree(v.nodes, owner, s)
    ensures forall t | t in v.nodes[owner].slots :: t in v.nodes
    ensures var v' := AddSlotSpec(v, owner, s);
      && v'.nodes[s].parent == Some(owner)
      && v'.nodes[owner] == v.nodes[owner].(slots := RemoveNamed(v.nodes, v.nodes[owner].slots, SlotName(v.nodes[s])) + [s])
      && (forall x | x in v.nodes && x != owner && x != s && Some(x) != v.nodes[s].parent :: v'.nodes[x] == v.nodes[x])
  {
    assert Linked(v.nodes, owner);
    ClearNamedKeeps(v, owner, s);
    ReparentAndPushFrame(ClearNamed(v, owner, SlotName(v.nodes[s])), owner, s);
  }

  /** Re-parenting and pushing changes the slot's parent, the owner's slots (by one more slot)
      and the slot's old parent, and no other node. */
  lemma ReparentAndPushFrame(c: GroupView, owner: Id, s: Id)
    requires GroupViewOk(c) && owner in c.nodes && s in c.nodes && !InSubtree(c.nodes, owner, s)
    ensures var v' := ReparentAndPush(c, owner, s);
      && v'.nodes[s].parent == Some(owner)
      && v'.nodes[owner] == c.nodes[owner].(slots := c.nodes[owner].slots + [s])
      && (forall x | x in c.nodes && x != owner && x != s && Some(x) != c.nodes[s].parent :: v'.nodes[x] == c.nodes[x])
  {
    SetParentKeeps(c, s, Some(owner));
    SetParentFrame(c, s, Some(owner));
  }
}
