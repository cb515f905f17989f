/** The tree-position algorithms over the parent relation: `zLevel`, `getZLevelTop`,
    `contains`, `comparePosition`, and the upward bubbling of `didDropIn`/`didDropOut`. */
module TreePosition {
  import opened Values
  import opened NodeRecords

  /** The document's nodes, keyed by id. */
  type Store = map<Id, NodeRec>

  // ---- acyclicity of the parent relation

  /** `rank` strictly decreases along every parent link, and stays below `bound`; every
      parent is a node of the store. */
  ghost predicate RankedBy(nodes: Store, rank: map<Id, nat>, bound: nat) {
    forall x | x in nodes ::
      && x in rank
      && rank[x] < bound
      && (nodes[x].parent.Some? ==>
            && nodes[x].parent.value in nodes
            && nodes[x].parent.value in rank
            && rank[nodes[x].parent.value] < rank[x])
  }

  /** The parent relation has no cycle (and no dangling parent). */
  ghost predicate Acyclic(nodes: Store) {
    exists rank: map<Id, nat>, bound: nat :: RankedBy(nodes, rank, bound)
  }

  ghost function Witness(nodes: Store): (w: (map<Id, nat>, nat))
    requires Acyclic(nodes)
    ensures RankedBy(nodes, w.0, w.1)
  {
    var rank: map<Id, nat>, bound: nat :| RankedBy(nodes, rank, bound);
    (rank, bound)
  }

  ghost function Rank(nodes: Store, n: Id): nat
    requires Acyclic(nodes) && n in nodes
  {
    Witness(nodes).0[n]
  }

  lemma ParentRanked(nodes: Store, n: Id)
    requires Acyclic(nodes) && n in nodes
    ensures nodes[n].parent.Some? ==>
      nodes[n].parent.value in nodes && Rank(nodes, nodes[n].parent.value) < Rank(nodes, n)
  {
  }

  // ---- zLevel

  /** `zLevel`: the depth of a node, 0 for a node without parent, its parent's plus one
      otherwise. */
  function ZLevel(nodes: Store, n: Id): nat
    requires Acyclic(nodes) && n in nodes
    decreases Rank(nodes, n)
  {
    match nodes[n].parent
    case None => 0
    case Some(p) => ParentRanked(nodes, n); ZLevel(nodes, p) + 1
  }

  /** The node reached from `n` by exactly `k` parent steps, if there are that many. */
  function Ancestor(nodes: Store, n: Id, k: nat): (a: Option<Id>)
    requires Acyclic(nodes) && n in nodes
    ensures a.Some? ==> a.value in nodes
    decreases k
  {
    if k == 0 then Some(n)
    else
      match nodes[n].parent
      case None => None
      case Some(p) => ParentRanked(nodes, n); Ancestor(nodes, p, k - 1)
  }

  /** `a` is reached from `b` by one or more parent steps. */
  predicate IsStrictAncestor(nodes: Store, a: Id, b: Id)
    requires Acyclic(nodes) && b in nodes
    decreases Rank(nodes, b)
  {
    match nodes[b].parent
    case None => false
    case Some(p) => ParentRanked(nodes, b); p == a || IsStrictAncestor(nodes, a, p)
  }

  /** The zLevel counts the parent steps to the root: exactly `ZLevel(n)` steps are possible,
      they end at a node without parent, and each step lowers the depth by one. */
  lemma {:induction false} AncestorDepth(nodes: Store, n: Id, k: nat)
    requires Acyclic(nodes) && n in nodes
    ensures k <= ZLevel(nodes, n) ==>
      Ancestor(nodes, n, k).Some? && ZLevel(nodes, Ancestor(nodes, n, k).value) == ZLevel(nodes, n) - k
    ensures k == ZLevel(nodes, n) ==> nodes[Ancestor(nodes, n, k).value].parent.None?
    ensures k > ZLevel(nodes, n) ==> Ancestor(nodes, n, k).None?
    decreases k
  {
    if k > 0 {
      match nodes[n].parent
      case None =>
      case Some(p) =>
        ParentRanked(nodes, n);
        AncestorDepth(nodes, p, k - 1);
    }
  }

  /** One more step up is one parent step from where `k` steps led. */
  lemma {:induction false} AncestorStep(nodes: Store, n: Id, k: nat)
    requires Acyclic(nodes) && n in nodes
    ensures Ancestor(nodes, n, k + 1) ==
      if Ancestor(nodes, n, k).Some? then nodes[Ancestor(nodes, n, k).value].parent else None
    decreases k
  {
    if k > 0 {
      match nodes[n].parent
      case None =>
      case Some(p) =>
        ParentRanked(nodes, n);
        AncestorStep(nodes, p, k - 1);
    }
  }

  /** One or more parent steps reach a strict ancestor. */
  lemma {:induction false} AncestorIsStrict(nodes: Store, n: Id, k: nat)
    requires Acyclic(nodes) && n in nodes && k >= 1
    ensures Ancestor(nodes, n, k).Some? ==> IsStrictAncestor(nodes, Ancestor(nodes, n, k).value, n)
    decreases k
  {
    match nodes[n].parent
    case None =>
    case Some(p) =>
      ParentRanked(nodes, n);
      if k > 1 {
        AncestorIsStrict(nodes, p, k - 1);
      }
  }

  /** A strict ancestor is a node of the store and is shallower. */
  lemma {:induction false} StrictAncestorShallower(nodes: Store, a: Id, b: Id)
    requires Acyclic(nodes) && b in nodes
    ensures IsStrictAncestor(nodes, a, b) ==> a in nodes && ZLevel(nodes, a) < ZLevel(nodes, b)
    decreases Rank(nodes, b)
  {
    match nodes[b].parent
    case None =>
    case Some(p) =>
      ParentRanked(nodes, b);
      StrictAncestorShallower(nodes, a, p);
  }

  // ---- getZLevelTop

  /** What `getZLevelTop(child, zLevel)` returns: nothing for a negative depth or one below the
      child, otherwise the ancestor reached by `zLevel(child) - zLevel` parent steps. */
  function AncestorAtDepth(nodes: Store, n: Id, d: int): (a: Option<Id>)
    requires Acyclic(nodes) && n in nodes
    ensures a.Some? ==> a.value in nodes
  {
    if d < 0 || ZLevel(nodes, n) < d then None else Ancestor(nodes, n, ZLevel(nodes, n) - d)
  }

  /** The ancestor at depth `d` exists exactly for `0 <= d <= zLevel(n)`, is `n` itself at
      `n`'s own depth, sits at depth `d`, and is a strict ancestor above that. */
  lemma AncestorAtDepthSpec(nodes: Store, n: Id, d: int)
    requires Acyclic(nodes) && n in nodes
    ensures AncestorAtDepth(nodes, n, d).None? <==> d < 0 || d > ZLevel(nodes, n)
    ensures d == ZLevel(nodes, n) ==> AncestorAtDepth(nodes, n, d) == Some(n)
    ensures AncestorAtDepth(nodes, n, d).Some? ==> ZLevel(nodes, AncestorAtDepth(nodes, n, d).value) == d
    ensures 0 <= d < ZLevel(nodes, n) ==>
      IsStrictAncestor(nodes, AncestorAtDepth(nodes, n, d).value, n)
  {
    if 0 <= d <= ZLevel(nodes, n) {
      AncestorDepth(nodes, n, ZLevel(nodes, n) - d);
      if d < ZLevel(nodes, n) {
        AncestorIsStrict(nodes, n, ZLevel(nodes, n) - d);
      }
    }
  }

  /** `getZLevelTop`: walks up from `child` while the remaining depth exceeds `zLevel`. */
  method GetZLevelTop(nodes: Store, child: Id, zLevel: int) returns (r: Option<Id>)
    requires Acyclic(nodes) && child in nodes
    ensures r == AncestorAtDepth(nodes, child, zLevel)
  {
    var l := ZLevel(nodes, child);
    if l < zLevel || zLevel < 0 {
      return None;
    }
    if l == zLevel {
      return Some(child);
    }
    r := Some(child);
    // `while (r && l-- > zLevel) r = r.parent;` (the decrement after the last test is unused)
    while r.Some? && l > zLevel
      invariant zLevel <= l <= ZLevel(nodes, child)
      invariant r == Ancestor(nodes, child, ZLevel(nodes, child) - l)
      decreases l
    {
      AncestorDepth(nodes, child, ZLevel(nodes, child) - l);
      AncestorStep(nodes, child, ZLevel(nodes, child) - l);
      l := l - 1;
      r := nodes[r.value].parent;
    }
    AncestorDepth(nodes, child, ZLevel(nodes, child) - l);
  }

  /** The ancestor of `b` at `a`'s depth is `a` exactly when `a` is a strict ancestor of the
      deeper node `b`. */
  lemma {:induction false} AtDepthIsAncestor(nodes: Store, a: Id, b: Id)
    requires Acyclic(nodes) && a in nodes && b in nodes
    requires ZLevel(nodes, a) < ZLevel(nodes, b)
    ensures AncestorAtDepth(nodes, b, ZLevel(nodes, a)) == Some(a) <==> IsStrictAncestor(nodes, a, b)
    decreases Rank(nodes, b)
  {
    var p := nodes[b].parent.value;
    ParentRanked(nodes, b);
    var z := ZLevel(nodes, a);
    assert AncestorAtDepth(nodes, b, z) == AncestorAtDepth(nodes, p, z);
    if ZLevel(nodes, p) == z {
      StrictAncestorShallower(nodes, a, p);
    } else {
      AtDepthIsAncestor(nodes, a, p);
    }
  }

  // ---- contains

  /** `contains(node1, node2)`. */
  function Contains(nodes: Store, a: Id, b: Id): bool
    requires Acyclic(nodes) && a in nodes && b in nodes
  {
    if a == b then true
    else if !IsParental(nodes[a]) || nodes[b].parent.None? then false
    else
      var p := AncestorAtDepth(nodes, b, ZLevel(nodes, a));
      if p.None? then false else p.value == a
  }

  /** A node contains itself, and otherwise exactly its strict descendants, unless it is a
      Leaf, which contains nothing else. */
  lemma ContainsMeaning(nodes: Store, a: Id, b: Id)
    requires Acyclic(nodes) && a in nodes && b in nodes
    ensures Contains(nodes, a, b) <==> a == b || (IsParental(nodes[a]) && IsStrictAncestor(nodes, a, b))
  {
    StrictAncestorShallower(nodes, a, b);
    if a != b && IsParental(nodes[a]) && nodes[b].parent.Some? {
      var za, zb := ZLevel(nodes, a), ZLevel(nodes, b);
      if za < zb {
        AtDepthIsAncestor(nodes, a, b);
      } else {
        AncestorAtDepthSpec(nodes, b, za);
      }
    }
  }

  /** For a chain `a -> b -> c` under a parental `a`: `a` contains `c`, `c` does not contain `a`. */
  lemma ContainsChain(nodes: Store, a: Id, b: Id, c: Id)
    requires Acyclic(nodes) && a in nodes && b in nodes && c in nodes
    requires nodes[c].parent == Some(b) && nodes[b].parent == Some(a) && IsParental(nodes[a])
    ensures Contains(nodes, a, c)
    ensures !Contains(nodes, c, a)
  {
    ContainsMeaning(nodes, a, c);
    ContainsMeaning(nodes, c, a);
    StrictAncestorShallower(nodes, c, a);
    assert ZLevel(nodes, c) == ZLevel(nodes, a) + 2;
  }

  // ---- comparePosition

  /** `PositionNO`: 16 contains, 8 contained by, 2 before or after, 0 the same. */
  datatype PositionNO = Contains | ContainedBy | BeforeOrAfter | TheSame {
    function Code(): int {
      match this
      case Contains => 16
      case ContainedBy => 8
      case BeforeOrAfter => 2
      case TheSame => 0
    }

    /** The result of comparing the other way round. */
    function Swapped(): PositionNO {
      match this
      case Contains => ContainedBy
      case ContainedBy => Contains
      case other => other
    }
  }

  /** `comparePosition(node1, node2)`. */
  function ComparePosition(nodes: Store, a: Id, b: Id): PositionNO
    requires Acyclic(nodes) && a in nodes && b in nodes
  {
    if a == b then TheSame
    else
      var l1 := ZLevel(nodes, a);
      var l2 := ZLevel(nodes, b);
      if l1 == l2 then BeforeOrAfter
      else if l1 < l2 then
        var p := AncestorAtDepth(nodes, b, l1);
        if p.Some? && p.value == a then PositionNO.Contains else BeforeOrAfter
      else
        var p := AncestorAtDepth(nodes, a, l2);
        if p.Some? && p.value == b then ContainedBy else BeforeOrAfter
  }

  /** TheSame exactly for one node, Contains exactly for a strict ancestor, ContainedBy exactly
      for a strict descendant, BeforeOrAfter otherwise (in particular at equal depth). */
  lemma ComparePositionMeaning(nodes: Store, a: Id, b: Id)
    requires Acyclic(nodes) && a in nodes && b in nodes
    ensures ComparePosition(nodes, a, b) == TheSame <==> a == b
    ensures ComparePosition(nodes, a, b) == PositionNO.Contains <==> IsStrictAncestor(nodes, a, b)
    ensures ComparePosition(nodes, a, b) == ContainedBy <==> IsStrictAncestor(nodes, b, a)
    ensures a != b && ZLevel(nodes, a) == ZLevel(nodes, b) ==> ComparePosition(nodes, a, b) == BeforeOrAfter
  {
    StrictAncestorShallower(nodes, a, b);
    StrictAncestorShallower(nodes, b, a);
    var l1, l2 := ZLevel(nodes, a), ZLevel(nodes, b);
    if l1 < l2 {
      AtDepthIsAncestor(nodes, a, b);
    } else if l2 < l1 {
      AtDepthIsAncestor(nodes, b, a);
    }
  }

  /** Swapping the arguments swaps Contains and ContainedBy and keeps the other two. */
  lemma ComparePositionSwap(nodes: Store, a: Id, b: Id)
    requires Acyclic(nodes) && a in nodes && b in nodes
    ensures ComparePosition(nodes, b, a) == ComparePosition(nodes, a, b).Swapped()
  {
    ComparePositionMeaning(nodes, a, b);
    ComparePositionMeaning(nodes, b, a);
  }

  // ---- didDropIn / didDropOut bubbling

  /** The nodes whose `didDropIn`/`didDropOut` runs when the hook starts at `x`: `x`, then
      each ancestor in turn up to the root. */
  function DropChain(nodes: Store, x: Id): (c: seq<Id>)
    requires Acyclic(nodes) && x in nodes
    ensures forall y | y in c :: y in nodes
    decreases Rank(nodes, x)
  {
    match nodes[x].parent
    case None => [x]
    case Some(p) => ParentRanked(nodes, x); [x] + DropChain(nodes, p)
  }

  /** The hook visits `zLevel(x) + 1` nodes, the k-th being the ancestor k steps up, ends at
      the root, and visits exactly `x` and its strict ancestors. */
  lemma {:induction false} DropChainSpec(nodes: Store, x: Id)
    requires Acyclic(nodes) && x in nodes
    ensures |DropChain(nodes, x)| == ZLevel(nodes, x) + 1
    ensures forall k | 0 <= k < |DropChain(nodes, x)| :: Ancestor(nodes, x, k) == Some(DropChain(nodes, x)[k])
    ensures forall y :: y in DropChain(nodes, x) <==> y == x || IsStrictAncestor(nodes, y, x)
    decreases Rank(nodes, x)
  {
    match nodes[x].parent
    case None =>
    case Some(p) =>
      ParentRanked(nodes, x);
      DropChainSpec(nodes, p);
      var c := DropChain(nodes, x);
      forall k | 0 <= k < |c| ensures Ancestor(nodes, x, k) == Some(c[k]) {
        if k > 0 {
          assert c[k] == DropChain(nodes, p)[k - 1];
        }
      }
  }

  /** The chain from `x` depends only on the parent links of the nodes on it. */
  lemma {:induction false} DropChainFrame(nodes: Store, nodes': Store, x: Id)
    requires Acyclic(nodes) && Acyclic(nodes') && x in nodes && x in nodes'
    requires forall y | y in DropChain(nodes, x) :: y in nodes' && nodes'[y].parent == nodes[y].parent
    ensures DropChain(nodes', x) == DropChain(nodes, x)
    decreases Rank(nodes, x)
  {
    assert x in DropChain(nodes, x);
    match nodes[x].parent
    case None =>
    case Some(p) =>
      ParentRanked(nodes, x);
      ParentRanked(nodes', x);
      assert forall y | y in DropChain(nodes, p) :: y in DropChain(nodes, x);
      DropChainFrame(nodes, nodes', p);
  }

  /** Re-parenting `n` does not change the chain from a node outside `n`'s subtree. */
  lemma DropChainOutside(nodes: Store, nodes': Store, n: Id, p: Id)
    requires Acyclic(nodes) && Acyclic(nodes') && n in nodes && p in nodes && p in nodes'
    requires !InSubtree(nodes, p, n)
    requires forall x | x in nodes && x != n :: x in nodes' && nodes'[x].parent == nodes[x].parent
    ensures DropChain(nodes', p) == DropChain(nodes, p)
  {
    DropChainSpec(nodes, p);
    DropChainFrame(nodes, nodes', p);
  }

  // ---- re-parenting keeps the relation acyclic

  /** `x` is `root` or lies below it. */
  predicate InSubtree(nodes: Store, x: Id, root: Id)
    requires Acyclic(nodes) && x in nodes
  {
    x == root || IsStrictAncestor(nodes, root, x)
  }

  /** Giving `n` a new parent `p` from outside `n`'s subtree, and changing no other parent
      link, leaves the relation acyclic. */
  lemma ReparentKeepsAcyclic(nodes: Store, nodes': Store, n: Id, p: Id)
    requires Acyclic(nodes) && n in nodes && p in nodes
    requires nodes'.Keys == nodes.Keys
    requires forall x | x in nodes && x != n :: nodes'[x].parent == nodes[x].parent
    requires nodes'[n].parent == Some(p)
    requires !InSubtree(nodes, p, n)
    ensures Acyclic(nodes')
  {
    var (rank, bound) := Witness(nodes);
    var shift: nat := if rank[p] + 1 > rank[n] then rank[p] + 1 - rank[n] else 0;
    var rank' := map x | x in nodes :: if InSubtree(nodes, x, n) then rank[x] + shift else rank[x];
    forall x | x in nodes' && nodes'[x].parent.Some?
      ensures nodes'[x].parent.value in nodes' && rank'[nodes'[x].parent.value] < rank'[x]
    {
      if x != n {
        var y := nodes[x].parent.value;
        assert InSubtree(nodes, x, n) == InSubtree(nodes, y, n);
      }
    }
    assert RankedBy(nodes', rank', bound + shift);
  }

  /** Changing no parent link keeps the relation acyclic. */
  lemma SameParentsKeepAcyclic(nodes: Store, nodes': Store)
    requires Acyclic(nodes)
    requires nodes'.Keys == nodes.Keys
    requires forall x | x in nodes :: nodes'[x].parent == nodes[x].parent
    ensures Acyclic(nodes')
  {
    var (rank, bound) := Witness(nodes);
    assert RankedBy(nodes', rank, bound);
  }

  /** Ancestry depends on the parent links only. */
  lemma {:induction false} StrictAncestorFrame(nodes: Store, nodes': Store, a: Id, b: Id)
    requires Acyclic(nodes) && Acyclic(nodes') && b in nodes
    requires nodes'.Keys == nodes.Keys
    requires forall x | x in nodes :: nodes'[x].parent == nodes[x].parent
    ensures IsStrictAncestor(nodes', a, b) == IsStrictAncestor(nodes, a, b)
    decreases Rank(nodes, b)
  {
    match nodes[b].parent
    case None =>
    case Some(p) =>
      ParentRanked(nodes, b);
      StrictAncestorFrame(nodes, nodes', a, p);
  }
}
