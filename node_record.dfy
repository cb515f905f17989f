/** The per-node state of the `Node` class, its classification predicates, the loop/condition
    directives, the built-in extra props and the normalisation of initial children. */
module NodeRecords {
  import opened Values

  /** Node ids are the strings the owning document hands out. */
  type Id = string

  /** Identity of an ExclusiveGroup object. */
  type GroupId = nat

  const LEAF := "Leaf"
  const SLOT := "Slot"
  const PAGE := "Page"
  const COMPONENT := "Component"

  /** Transient UI flags (`NodeStatus`). */
  datatype Status = Status(locking: bool, pseudo: bool, inPlaceEditing: bool)

  datatype StatusField = Locking | Pseudo | InPlaceEditing

  /** One node. `children` stands for the NodeChildren collection of a parental node; a Leaf
      has none, which the store keeps as the empty sequence. `slotFor` records whether the
      slot-owner prop back-reference is set. `props` and `extras` are the attribute facade:
      ordinary props and extra props (keyed by their bare name). `addonProps`/`addonExtras`
      are the deprecated addon contributions, already split by their `isProp` flag. */
  datatype NodeRec = NodeRec(
    componentName: string,
    parent: Option<Id>,
    children: seq<Id>,
    slots: seq<Id>,
    slotFor: bool,
    conditionGroup: Option<GroupId>,
    props: map<string, Value>,
    extras: map<string, Value>,
    addonProps: map<string, Value>,
    addonExtras: map<string, Value>,
    purged: bool,
    purging: bool,
    status: Status)

  /** The flag `f` of a status. */
  function StatusOf(s: Status, f: StatusField): bool {
    match f
    case Locking => s.locking
    case Pseudo => s.pseudo
    case InPlaceEditing => s.inPlaceEditing
  }

  /** `status[field] = flag`: that flag takes the new value and the other two keep theirs. */
  function WithStatus(s: Status, f: StatusField, flag: bool): (s': Status)
    ensures StatusOf(s', f) == flag
    ensures forall g: StatusField | g != f :: StatusOf(s', g) == StatusOf(s, g)
  {
    match f
    case Locking => s.(locking := flag)
    case Pseudo => s.(pseudo := flag)
    case InPlaceEditing => s.(inPlaceEditing := flag)
  }

  /** Writing the value a flag already has leaves the status as it was, which is why the
      write may be skipped when the value is unchanged. */
  lemma WithStatusSame(s: Status, f: StatusField)
    ensures WithStatus(s, f, StatusOf(s, f)) == s
  {
  }

  /** `status.hasOwnProperty(field)`: the flag a property name denotes, if it is one of the
      three own properties of a status object. */
  function StatusFieldNamed(name: string): (f: Option<StatusField>)
    ensures f.Some? <==> name == "locking" || name == "pseudo" || name == "inPlaceEditing"
    ensures f == Some(Locking) <==> name == "locking"
    ensures f == Some(Pseudo) <==> name == "pseudo"
    ensures f == Some(InPlaceEditing) <==> name == "inPlaceEditing"
  {
    if name == "locking" then Some(Locking)
    else if name == "pseudo" then Some(Pseudo)
    else if name == "inPlaceEditing" then Some(InPlaceEditing)
    else None
  }

  /** What `getStatus(field)` answers: one flag, or the whole status object. */
  datatype StatusReading = Flag(flag: bool) | Whole(status: Status)

  /** `getStatus(field)`: the flag when a field naming one of the status's own properties is
      given (a flag is never null), the whole status otherwise. */
  function GetStatus(s: Status, field: Option<string>): (r: StatusReading)
    ensures r.Flag? <==> field.Some? && StatusFieldNamed(field.value).Some?
    ensures r.Flag? ==> r.flag == StatusOf(s, StatusFieldNamed(field.value).value)
    ensures r.Whole? ==> r.status == s
  {
    if field.Some? && field.value != "" && StatusFieldNamed(field.value).Some? then
      Flag(StatusOf(s, StatusFieldNamed(field.value).value))
    else Whole(s)
  }

  /** Reading a flag after setting it gives the value set; the other flags read as before. */
  lemma SetThenGetStatus(s: Status, name: string, other: string, flag: bool)
    requires StatusFieldNamed(name).Some? && StatusFieldNamed(other).Some? && other != name
    ensures GetStatus(WithStatus(s, StatusFieldNamed(name).value, flag), Some(name)) == Flag(flag)
    ensures GetStatus(WithStatus(s, StatusFieldNamed(name).value, flag), Some(other)) == GetStatus(s, Some(other))
  {
  }

  /** An ExclusiveGroup: its name and the nodes that joined it. */
  datatype ExclusiveGroup = ExclusiveGroup(name: string, members: set<Id>)

  // ---- classification predicates (isLeafNode, isParentalNode, isSlotNode, isEmpty, ...)

  predicate IsLeaf(r: NodeRec) {
    r.componentName == LEAF
  }

  predicate IsParental(r: NodeRec) {
    !IsLeaf(r)
  }

  predicate IsSlot(r: NodeRec) {
    r.slotFor && r.componentName == SLOT
  }

  /** `children ? children.isEmpty() : true`. */
  predicate IsEmpty(r: NodeRec) {
    if IsLeaf(r) then true else |r.children| == 0
  }

  predicate IsRoot(root: Option<Id>, n: Id) {
    root == Some(n)
  }

  predicate IsPage(root: Option<Id>, n: Id, r: NodeRec) {
    IsRoot(root, n) && r.componentName == PAGE
  }

  predicate IsComponent(root: Option<Id>, n: Id, r: NodeRec) {
    IsRoot(root, n) && r.componentName == COMPONENT
  }

  /** How the kinds relate: leaf and parental partition the nodes, slots, pages and
      components are parental, and a node with children is parental and not empty. */
  lemma Classification(root: Option<Id>, n: Id, r: NodeRec)
    ensures IsLeaf(r) != IsParental(r)
    ensures IsSlot(r) ==> IsParental(r)
    ensures IsPage(root, n, r) ==> IsRoot(root, n) && IsParental(r) && !IsComponent(root, n, r)
    ensures IsComponent(root, n, r) ==> IsRoot(root, n) && IsParental(r)
    ensures IsLeaf(r) ==> IsEmpty(r)
    ensures !IsEmpty(r) <==> IsParental(r) && |r.children| > 0
  {
  }

  /** The name a slot is registered under: the `name` extra prop as a string. */
  function SlotName(r: NodeRec): string {
    AsString(Lookup(r.extras, "name"))
  }

  // ---- directives

  /** `hasCondition()`: the `condition` extra is set to something other than null, undefined,
      the empty string and literal `true`. */
  predicate HasCondition(extras: map<string, Value>) {
    var v := Lookup(extras, "condition");
    v != Null && v != Undefined && v != Str("") && v != Bool(true)
  }

  /** `hasLoop()`: the `loop` extra is an array (of any length) or a JSExpression. */
  predicate HasLoop(extras: map<string, Value>) {
    var v := Lookup(extras, "loop");
    if v == Undefined || v == Null then false
    else if v.Arr? then true
    else if v.Expr? then true
    else false
  }

  lemma HasConditionCases(extras: map<string, Value>)
    ensures "condition" !in extras ==> !HasCondition(extras)
    ensures "condition" in extras && extras["condition"] == Bool(true) ==> !HasCondition(extras)
    ensures "condition" in extras && extras["condition"] == Bool(false) ==> HasCondition(extras)
    ensures "condition" in extras && extras["condition"].Expr? ==> HasCondition(extras)
    ensures HasCondition(extras) ==> "condition" in extras
  {
  }

  lemma HasLoopCases(extras: map<string, Value>)
    ensures HasLoop(extras) <==> "loop" in extras && (extras["loop"].Arr? || extras["loop"].Expr?)
    ensures HasLoop(extras["loop" := Arr([])])
    ensures !HasLoop(extras["loop" := Str("items")])
  {
  }

  // ---- built-in extra props (initBuiltinProps)

  /** `props.has(key) || props.add(value, key)`: adds the key only when it is missing. */
  function Seed(m: map<string, Value>, key: string, v: Value): map<string, Value> {
    if key in m then m else m[key := v]
  }

  const BUILTIN_KEYS: set<string> := {"hidden", "title", "isLocked", "condition", "conditionGroup", "loop"}

  /** The extras after the six seeding steps, in the order the source runs them. */
  function WithBuiltins(extras: map<string, Value>): (r: map<string, Value>)
    ensures r.Keys == extras.Keys + BUILTIN_KEYS
    ensures forall k | k in extras :: r[k] == extras[k]
  {
    var e1 := Seed(extras, "hidden", Bool(false));
    var e2 := Seed(e1, "title", Str(""));
    var e3 := Seed(e2, "isLocked", Bool(false));
    var e4 := Seed(e3, "condition", Bool(true));
    var e5 := Seed(e4, "conditionGroup", Str(""));
    Seed(e5, "loop", Undefined)
  }

  /** The value each built-in key is seeded with when the node's schema did not set it. */
  lemma WithBuiltinsDefaults(extras: map<string, Value>)
    ensures var r := WithBuiltins(extras);
      && ("hidden" !in extras ==> r["hidden"] == Bool(false))
      && ("title" !in extras ==> r["title"] == Str(""))
      && ("isLocked" !in extras ==> r["isLocked"] == Bool(false))
      && ("condition" !in extras ==> r["condition"] == Bool(true))
      && ("conditionGroup" !in extras ==> r["conditionGroup"] == Str(""))
      && ("loop" !in extras ==> r["loop"] == Undefined)
  {
  }

  /** Seeding twice is seeding once. */
  lemma WithBuiltinsIdempotent(extras: map<string, Value>)
    ensures WithBuiltins(WithBuiltins(extras)) == WithBuiltins(extras)
  {
    var once := WithBuiltins(extras);
    var twice := WithBuiltins(once);
    assert twice.Keys == once.Keys;
    forall k | k in once ensures twice[k] == once[k] {
    }
  }

  /** A freshly seeded node has neither a condition nor a loop unless its schema set one. */
  lemma SeededDirectives(extras: map<string, Value>)
    ensures "condition" !in extras ==> !HasCondition(WithBuiltins(extras))
    ensures "loop" !in extras ==> !HasLoop(WithBuiltins(extras))
    ensures "condition" in extras ==> HasCondition(WithBuiltins(extras)) == HasCondition(extras)
    ensures "loop" in extras ==> HasLoop(WithBuiltins(extras)) == HasLoop(extras)
  {
    WithBuiltinsDefaults(extras);
  }

  // ---- initialChildren

  /** The `children` entry of an incoming schema: absent (null or undefined), one item, or an
      array of items. */
  datatype ChildrenInput<D> = Absent | One(item: D) | Many(items: seq<D>)

  /** The metadata's `initialChildren`: none, a fixed list, or a callback whose (possibly
      falsy) result is given. */
  datatype InitialChildren<D> = NoInitial | Fixed(list: seq<D>) | Computed(result: Option<seq<D>>)

  /** `initialChildren(children)`: normalises the schema's children to an array, falling back
      to the metadata's initial children only when the schema has none. */
  function InitialChildrenOf<D>(children: ChildrenInput<D>, meta: InitialChildren<D>): (r: seq<D>)
    ensures children.Many? ==> r == children.items
    ensures children.One? ==> r == [children.item]
    ensures children.Absent? && meta.Fixed? ==> r == meta.list
    ensures children.Absent? && meta.NoInitial? ==> r == []
    ensures children.Absent? && meta.Computed? ==>
      r == (if meta.result.Some? then meta.result.value else [])
  {
    match children
    case Absent =>
      (match meta
       case NoInitial => []
       case Fixed(list) => list
       case Computed(result) => if result.Some? then result.value else [])
    case Many(items) => items
    case One(item) => [item]
  }

  /** Normalising an already normalised list changes nothing, whatever the metadata says. */
  lemma InitialChildrenIdempotent<D>(children: ChildrenInput<D>, meta: InitialChildren<D>, meta2: InitialChildren<D>)
    ensures InitialChildrenOf(Many(InitialChildrenOf(children, meta)), meta2) == InitialChildrenOf(children, meta)
  {
  }
}
