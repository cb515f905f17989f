/** `Node.export`: the node schema a subtree is exported to, per transform stage. */
module SchemaExport {
  import opened Values
  import opened NodeRecords
  import opened TreePosition
  import opened NodeStore

  /** `IPublicEnumTransformStage`, after `compatStage` has mapped legacy numeric stages. */
  datatype Stage = Render | Serilize | Save | Clone | Init | Upgrade

  /** `designer.transformProps(props, node, stage)`: the designer's registered reducers, given
      to the model as a parameter. */
  type Transform = (map<string, Value>, Id, Stage) -> map<string, Value>

  type Schema = map<string, Value>

  /** `componentName` always, `id` unless cloning, `docId` only for rendering. */
  function BaseSchema(componentName: string, n: Id, docId: string, stage: Stage): (b: Schema)
    ensures "componentName" in b && b["componentName"] == Str(componentName)
    ensures "id" in b <==> stage != Clone
    ensures "id" in b ==> b["id"] == Str(n)
    ensures "docId" in b <==> stage == Render
    ensures "docId" in b ==> b["docId"] == Str(docId)
    ensures b.Keys <= {"componentName", "id", "docId"}
  {
    var b0 := map["componentName" := Str(componentName)];
    var b1 := if stage != Clone then b0["id" := Str(n)] else b0;
    if stage == Render then b1["docId" := Str(docId)] else b1
  }

  /** The transformed extras a parental node spreads over its schema: its extra props with the
      non-prop addons' data laid over them. */
  function ExtrasOut(nodes: Store, transform: Transform, n: Id, stage: Stage): Schema
    requires n in nodes
  {
    transform(nodes[n].extras + nodes[n].addonExtras, n, stage)
  }

  /** The transformed props of a parental node: its props with the prop addons' data laid over
      them. */
  function PropsOut(nodes: Store, transform: Transform, n: Id, stage: Stage): Schema
    requires n in nodes
  {
    transform(nodes[n].props + nodes[n].addonProps, n, stage)
  }

  /** `export(stage, { bypassChildren })`. A Leaf exports its `children` prop; a parental node
      exports `props`, its extras spread over the schema, and its children in order. */
  function Export(nodes: Store, docId: string, transform: Transform, n: Id, stage: Stage, bypassChildren: bool): Schema
    requires Wf(nodes) && n in nodes
    decreases Witness(nodes).1 - Rank(nodes, n)
  {
    var r := nodes[n];
    var base := BaseSchema(r.componentName, n, docId, stage);
    if IsLeaf(r) then
      if bypassChildren then base else base["children" := Lookup(r.props, "children")]
    else
      var schema := base["props" := Obj(PropsOut(nodes, transform, n, stage))] + ExtrasOut(nodes, transform, n, stage);
      if |r.children| > 0 && !bypassChildren then
        schema["children" := Arr(ExportChildren(nodes, docId, transform, n, stage))]
      else schema
  }

  /** `children.export(stage)`: each child exported in order. */
  function ExportChildren(nodes: Store, docId: string, transform: Transform, n: Id, stage: Stage): (cs: seq<Value>)
    requires Wf(nodes) && n in nodes
    ensures |cs| == |nodes[n].children|
    decreases Witness(nodes).1 - Rank(nodes, n), 0
  {
    var children := nodes[n].children;
    seq(|children|, i requires 0 <= i < |children| =>
      ChildRanked(nodes, n, children[i]);
      Obj(Export(nodes, docId, transform, children[i], stage, false)))
  }

  /** Which keys an exported schema has. A Leaf never has `props`; a parental node always does.
      `id` is there exactly when not cloning and `docId` exactly when rendering (unless a
      transformed extra of a parental node supplies them); `children` is there on a Leaf
      unless bypassed, and on a parental node only with at least one child and no bypass (or
      from a transformed extra). */
  lemma ExportShape(nodes: Store, docId: string, transform: Transform, n: Id, stage: Stage, bypassChildren: bool)
    requires Wf(nodes) && n in nodes
    ensures var s := Export(nodes, docId, transform, n, stage, bypassChildren);
      var leaf := IsLeaf(nodes[n]);
      var extras := ExtrasOut(nodes, transform, n, stage);
      && "componentName" in s
      && ("props" in s <==> !leaf)
      && ("id" in s <==> stage != Clone || (!leaf && "id" in extras))
      && ("docId" in s <==> stage == Render || (!leaf && "docId" in extras))
      && ("children" in s <==>
            if leaf then !bypassChildren
            else (|nodes[n].children| > 0 && !bypassChildren) || "children" in extras)
      && (leaf ==> s.Keys <= {"componentName", "id", "docId", "children"})
  {
  }

  /** When the transformed extras use none of the reserved keys, the identity keys carry the
      node's own name and id, and `props` the transformed props. */
  lemma ExportValues(nodes: Store, docId: string, transform: Transform, n: Id, stage: Stage, bypassChildren: bool)
    requires Wf(nodes) && n in nodes
    requires forall k | k in ExtrasOut(nodes, transform, n, stage) ::
      k !in {"componentName", "id", "docId", "props", "children"}
    ensures var s := Export(nodes, docId, transform, n, stage, bypassChildren);
      && s["componentName"] == Str(nodes[n].componentName)
      && ("id" in s ==> s["id"] == Str(n))
      && ("docId" in s ==> s["docId"] == Str(docId))
      && (IsParental(nodes[n]) ==> s["props"] == Obj(PropsOut(nodes, transform, n, stage)))
  {
  }

  /** Under the same condition the exported `children` of a parental node are its children's
      own exports, one per child, in order. */
  lemma ExportChildrenInOrder(nodes: Store, docId: string, transform: Transform, n: Id, stage: Stage, bypassChildren: bool)
    requires Wf(nodes) && n in nodes && IsParental(nodes[n])
    requires "children" !in ExtrasOut(nodes, transform, n, stage)
    ensures var s := Export(nodes, docId, transform, n, stage, bypassChildren);
      "children" in s ==>
        && s["children"].Arr?
        && |s["children"].items| == |nodes[n].children|
        && forall k | 0 <= k < |nodes[n].children| ::
             nodes[n].children[k] in nodes &&
             s["children"].items[k] == Obj(Export(nodes, docId, transform, nodes[n].children[k], stage, false))
  {
    assert Linked(nodes, n);
  }

  /** Exporting a clone drops every `id` the transforms do not add back, down the whole
      subtree: the exported children carry no `id` either. */
  lemma {:induction false} CloneHasNoIds(nodes: Store, docId: string, transform: Transform, n: Id, bypassChildren: bool)
    requires Wf(nodes) && n in nodes
    requires forall x, k | x in nodes && k in ExtrasOut(nodes, transform, x, Clone) :: k != "id"
    ensures NoIds(nodes, docId, transform, n, bypassChildren)
    decreases Witness(nodes).1 - Rank(nodes, n)
  {
    var r := nodes[n];
    var s := Export(nodes, docId, transform, n, Clone, bypassChildren);
    ExportShape(nodes, docId, transform, n, Clone, bypassChildren);
    if IsParental(r) {
      assert Linked(nodes, n);
      forall k | 0 <= k < |r.children|
        ensures r.children[k] in nodes && NoIds(nodes, docId, transform, r.children[k], false)
      {
        ChildRanked(nodes, n, r.children[k]);
        CloneHasNoIds(nodes, docId, transform, r.children[k], false);
      }
    }
  }

  /** The cloned export of `n` has no `id`, and neither do its exported children, recursively
      (a Leaf's `children` value is its text and is not a schema). */
  ghost predicate NoIds(nodes: Store, docId: string, transform: Transform, n: Id, bypassChildren: bool)
    requires Wf(nodes) && n in nodes
    decreases Witness(nodes).1 - Rank(nodes, n), 1
  {
    var s := Export(nodes, docId, transform, n, Clone, bypassChildren);
    && "id" !in s
    && (IsParental(nodes[n]) && !bypassChildren ==>
          forall k | 0 <= k < |nodes[n].children| ::
            ChildRanked(nodes, n, nodes[n].children[k]);
            NoIds(nodes, docId, transform, nodes[n].children[k], false))
  }
}
