// Decoded JSON as the Go program holds it: maps and slices that are updated in place, and the tree they form.
module JsonHeap {
  import opened JsonPath

  /** map[string]any. */
  class ObjectNode {
    var members: map<string, Node>

    constructor (members: map<string, Node>)
      ensures this.members == members
    {
      this.members := members;
    }
  }

  /** A decoded value: maps and slices are references. */
  datatype Node = Leaf(value: Json) | ArrayRef(items: array<Node>) | ObjectRef(obj: ObjectNode)

  /** The tree a decoded document is: which map or slice stands where, and which ones stand at or below it. */
  datatype Tree =
    | LeafTree(value: Json)
    | ArrayTree(items: array<Node>, kids: seq<Tree>, foot: set<object>)
    | ObjectTree(obj: ObjectNode, members: map<string, Tree>, foot: set<object>)

  // ---------------------------------------------------------------------------------------------
  // Trees
  // ---------------------------------------------------------------------------------------------

  ghost function Foot(t: Tree): set<object> {
    if t.LeafTree? then {} else t.foot
  }

  /** No map or slice stands in two places, as in a document that was just decoded. */
  ghost predicate Owned(t: Tree) {
    match t
    case LeafTree(value) => !value.Array? && !value.Object?
    case ArrayTree(items, kids, foot) =>
      && items in foot
      && (forall i | 0 <= i < |kids| :: Owned(kids[i]) && Foot(kids[i]) <= foot - {items})
      && (forall i, j | 0 <= i < j < |kids| :: Foot(kids[i]) !! Foot(kids[j]))
    case ObjectTree(obj, members, foot) =>
      && obj in foot
      && (forall k | k in members :: Owned(members[k]) && Foot(members[k]) <= foot - {obj})
      && (forall k, l | k in members && l in members && k != l :: Foot(members[k]) !! Foot(members[l]))
  }

  /** In the present state node is the root of t. */
  ghost predicate Matches(node: Node, t: Tree)
    requires Owned(t)
    reads Foot(t)
    decreases t
  {
    match t
    case LeafTree(value) => node == Leaf(value)
    case ArrayTree(items, kids, _) =>
      node == ArrayRef(items) && items.Length == |kids| && forall i | 0 <= i < |kids| :: Matches(items[i], kids[i])
    case ObjectTree(obj, members, _) =>
      && node == ObjectRef(obj) && obj.members.Keys == members.Keys
      && forall k | k in members :: Matches(obj.members[k], members[k])
  }

  /** The document. */
  ghost function ValueOf(t: Tree): Json {
    match t
    case LeafTree(value) => value
    case ArrayTree(_, kids, _) => Array(seq(|kids|, i requires 0 <= i < |kids| => ValueOf(kids[i])))
    case ObjectTree(_, members, _) => Object(map k | k in members :: ValueOf(members[k]))
  }

  // What changing the children of a map or slice makes of the tree.

  lemma ArrayKids(t: Tree)
    requires t.ArrayTree? && Owned(t)
    ensures t.items in t.foot
    ensures forall i | 0 <= i < |t.kids| :: Owned(t.kids[i]) && Foot(t.kids[i]) <= t.foot - {t.items}
    ensures forall i, j | 0 <= i < j < |t.kids| :: Foot(t.kids[i]) !! Foot(t.kids[j])
  {
  }

  lemma ObjectKids(t: Tree)
    requires t.ObjectTree? && Owned(t)
    ensures t.obj in t.foot
    ensures forall k | k in t.members :: Owned(t.members[k]) && Foot(t.members[k]) <= t.foot - {t.obj}
    ensures forall k, l | k in t.members && l in t.members && k != l :: Foot(t.members[k]) !! Foot(t.members[l])
  {
  }

  lemma ArrayOwned(t: Tree, us: seq<Tree>)
    requires t.ArrayTree? && Owned(t) && |us| == |t.kids|
    requires forall i | 0 <= i < |us| :: Owned(us[i]) && Foot(us[i]) <= Foot(t.kids[i])
    ensures Owned(ArrayTree(t.items, us, t.foot))
  {
    forall i, j | 0 <= i < j < |us| ensures Foot(us[i]) !! Foot(us[j]) {
      assert Foot(t.kids[i]) !! Foot(t.kids[j]);
    }
  }

  lemma ObjectOwned(t: Tree, us: map<string, Tree>)
    requires t.ObjectTree? && Owned(t) && us.Keys == t.members.Keys
    requires forall k | k in us :: Owned(us[k]) && Foot(us[k]) <= Foot(t.members[k])
    ensures Owned(ObjectTree(t.obj, us, t.foot))
  {
    forall k, l | k in us && l in us && k != l ensures Foot(us[k]) !! Foot(us[l]) {
      assert Foot(t.members[k]) !! Foot(t.members[l]);
    }
  }

  lemma ArrayMatches(items: array<Node>, t: Tree)
    requires Owned(t) && Matches(ArrayRef(items), t)
    ensures t.ArrayTree? && t.items == items && |t.kids| == items.Length
  {
  }

  lemma ObjectMatches(obj: ObjectNode, t: Tree)
    requires Owned(t) && Matches(ObjectRef(obj), t)
    ensures t.ObjectTree? && t.obj == obj && t.members.Keys == obj.members.Keys
    ensures forall k | k in t.members :: Owned(t.members[k]) && Matches(obj.members[k], t.members[k])
  {
  }

  lemma ObjectMatched(obj: ObjectNode, us: map<string, Tree>, foot: set<object>)
    requires Owned(ObjectTree(obj, us, foot)) && us.Keys == obj.members.Keys
    requires forall k | k in us :: Owned(us[k]) && Matches(obj.members[k], us[k])
    ensures Matches(ObjectRef(obj), ObjectTree(obj, us, foot))
  {
  }

  /** The shape of the document is that of the tree. */
  lemma ValueShape(t: Tree)
    ensures t.ArrayTree? ==> ValueOf(t).Array? && |ValueOf(t).items| == |t.kids|
    ensures t.ObjectTree? ==> ValueOf(t).Object? && ValueOf(t).members.Keys == t.members.Keys
    ensures t.LeafTree? ==> ValueOf(t) == t.value
  {
  }

  lemma LeafKind(t: Tree)
    requires Owned(t)
    ensures t.LeafTree? ==> !t.value.Array? && !t.value.Object?
  {
  }
}
