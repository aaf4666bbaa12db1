// The walk that overwrites the decoded document: redactValue, redactSelected and RedactResult in
// internal/dadl/redact.go on maps and slices that are updated in place, against the functions of module Redact.
module RedactInPlace {
  import opened Text
  import opened JsonPath
  import opened JsonPathSyntax
  import opened JsonHeap
  import Redact

  ghost predicate Within(t: Tree, u: Tree) {
    Owned(u) && Foot(u) <= Foot(t)
  }

  /** u is what redacting by segs left of t. */
  ghost predicate Redacted(t: Tree, segs: seq<Segment>, u: Tree) {
    Within(t, u) && ValueOf(u) == Redact.RedactValue(ValueOf(t), segs)
  }

  ghost predicate Selected(t: Tree, seg: Segment, rest: seq<Segment>, u: Tree) {
    Owned(u) && Foot(u) <= Foot(t) && ValueOf(u) == Redact.RedactSelected(ValueOf(t), seg, rest)
  }

  lemma ArrayValue(t: Tree, seg: Segment, rest: seq<Segment>, us: seq<Tree>)
    requires t.ArrayTree? && |us| == |t.kids| && seg.wildcard
    requires forall i | 0 <= i < |us| :: ValueOf(us[i]) == Redact.RedactValue(ValueOf(t.kids[i]), rest)
    ensures ValueOf(ArrayTree(t.items, us, t.foot)) == Redact.RedactSelected(ValueOf(t), seg, rest)
  {
    hide Redact.RedactValue;
  }

  lemma ObjectValue(t: Tree, seg: Segment, rest: seq<Segment>, us: map<string, Tree>)
    requires t.ObjectTree? && us.Keys == t.members.Keys && seg.wildcard
    requires forall k | k in us :: ValueOf(us[k]) == Redact.RedactValue(ValueOf(t.members[k]), rest)
    ensures ValueOf(ObjectTree(t.obj, us, t.foot)) == Redact.RedactSelected(ValueOf(t), seg, rest)
  {
    hide Redact.RedactValue;
    var members := ValueOf(t).members;
    assert ValueOf(ObjectTree(t.obj, us, t.foot)).members == map k | k in members :: Redact.RedactValue(members[k], rest);
  }

  lemma IndexValue(t: Tree, seg: Segment, rest: seq<Segment>, i: nat, u: Tree)
    requires t.ArrayTree? && !seg.wildcard && seg.index.Some? && Resolve(|t.kids|, seg.index.value) == Some(i)
    requires ValueOf(u) == Redact.RedactValue(ValueOf(t.kids[i]), rest)
    ensures ValueOf(ArrayTree(t.items, t.kids[i := u], t.foot)) == Redact.RedactSelected(ValueOf(t), seg, rest)
  {
    hide Redact.RedactValue;
    assert ValueOf(ArrayTree(t.items, t.kids[i := u], t.foot)).items == ValueOf(t).items[i := ValueOf(u)];
  }

  lemma FieldValue(t: Tree, segs: seq<Segment>, u: Tree)
    requires t.ObjectTree? && segs != [] && segs[0].field != "" && segs[0].field in t.members
    requires var seg, val := segs[0], ValueOf(t.members[segs[0].field]);
             ValueOf(u) == if seg.index.None? && !seg.wildcard then Redact.RedactValue(val, segs[1..])
                           else Redact.RedactSelected(val, seg, segs[1..])
    ensures ValueOf(ObjectTree(t.obj, t.members[segs[0].field := u], t.foot)) == Redact.RedactValue(ValueOf(t), segs)
  {
    hide Redact.RedactSelected;
    var f := segs[0].field;
    assert ValueOf(ObjectTree(t.obj, t.members[f := u], t.foot)).members == ValueOf(t).members[f := ValueOf(u)];
  }

  // ---------------------------------------------------------------------------------------------
  // The walk
  // ---------------------------------------------------------------------------------------------

  method RedactValue(data: Node, segs: seq<Segment>, ghost t: Tree) returns (r: Node, ghost u: Tree)
    requires Owned(t) && Matches(data, t)
    modifies Foot(t)
    ensures Within(t, u) && Redacted(t, segs, u) && Matches(r, u)
    decreases |segs|, 1
  {
    hide ValueOf, Owned, Redact.RedactSelected;
    ValueShape(t);
    LeafKind(t);
    if segs == [] {
      r, u := PlaceholderLeaf();
      return;
    }
    var seg, rest := segs[0], segs[1..];
    if seg.field != "" {
      r, u := data, t;
      if !data.ObjectRef? || seg.field !in data.obj.members {
        return;
      }
      r, u := RedactField(data.obj, segs, t);
      return;
    }
    r, u := RedactSelected(data, seg, rest, t);
  }

  method PlaceholderLeaf() returns (r: Node, ghost u: Tree)
    ensures Owned(u) && Foot(u) == {} && ValueOf(u) == Redact.PLACEHOLDER && Matches(r, u)
  {
    r, u := Leaf(Redact.PLACEHOLDER), LeafTree(Redact.PLACEHOLDER);
  }

  /** The branch of redactValue that resolves a field. */
  method RedactField(m: ObjectNode, segs: seq<Segment>, ghost t: Tree) returns (r: Node, ghost u: Tree)
    requires Owned(t) && Matches(ObjectRef(m), t) && t.ObjectTree? && segs != []
    requires segs[0].field != "" && segs[0].field in t.members
    modifies Foot(t)
    ensures Within(t, u) && Redacted(t, segs, u) && Matches(r, u)
    decreases |segs|, 0
  {
    hide ValueOf, Owned, Matches, Redact.RedactSelected, Redact.RedactValue;
    ObjectMatches(m, t);
    var seg, rest := segs[0], segs[1..];
    if seg.index.None? && !seg.wildcard {
      u := RedactMember(m, seg.field, None, rest, t);
    } else {
      u := RedactMember(m, seg.field, Some(seg), rest, t);
    }
    FieldValue(t, segs, u.members[seg.field]);
    r := ObjectRef(m);
  }

  method RedactSelected(val: Node, seg: Segment, rest: seq<Segment>, ghost t: Tree) returns (r: Node, ghost u: Tree)
    requires Owned(t) && Matches(val, t)
    modifies Foot(t)
    ensures Selected(t, seg, rest, u) && Matches(r, u)
    decreases |rest|, 6
  {
    if seg.wildcard {
      r, u := RedactEvery(val, seg, rest, t);
    } else if seg.index.Some? {
      r, u := RedactIndexed(val, seg, rest, t);
    } else {
      r, u := RedactValue(val, rest, t);
    }
  }

  /** The wildcard of redactSelected. */
  method RedactEvery(val: Node, seg: Segment, rest: seq<Segment>, ghost t: Tree) returns (r: Node, ghost u: Tree)
    requires Owned(t) && Matches(val, t) && seg.wildcard
    modifies Foot(t)
    ensures Selected(t, seg, rest, u) && Matches(r, u)
    decreases |rest|, 5
  {
    hide ValueOf, Owned, Redact.RedactValue;
    r, u := val, t;
    match val
    case ArrayRef(items) =>
      u := RedactItems(items, rest, t);
      ArrayValue(t, seg, rest, u.kids);
    case ObjectRef(obj) =>
      u := RedactMembers(obj, rest, t);
      ObjectValue(t, seg, rest, u.members);
    case Leaf(_) =>
      ValueShape(t);
      LeafKind(t);
  }

  /** The index of redactSelected. */
  method RedactIndexed(val: Node, seg: Segment, rest: seq<Segment>, ghost t: Tree) returns (r: Node, ghost u: Tree)
    requires Owned(t) && Matches(val, t) && !seg.wildcard && seg.index.Some?
    modifies Foot(t)
    ensures Selected(t, seg, rest, u) && Matches(r, u)
    decreases |rest|, 5
  {
    hide ValueOf, Owned, Redact.RedactValue;
    ValueShape(t);
    LeafKind(t);
    r, u := val, t;
    if !val.ArrayRef? {
      return;
    }
    var arr := val.items;
    var idx := seg.index.value;
    if idx < 0 {
      idx := arr.Length + idx;
    }
    if idx < 0 || idx >= arr.Length {
      return;
    }
    u := RedactElement(arr, idx, rest, t);
    IndexValue(t, seg, rest, idx, u.kids[idx]);
  }

  /** for i := range v. */
  method RedactItems(items: array<Node>, rest: seq<Segment>, ghost t: Tree) returns (ghost u: Tree)
    requires Owned(t) && Matches(ArrayRef(items), t)
    modifies Foot(t)
    ensures u.ArrayTree? && u == ArrayTree(items, u.kids, t.foot) && Owned(u) && Matches(ArrayRef(items), u)
    ensures |u.kids| == |t.kids| && forall i | 0 <= i < |u.kids| :: Redacted(t.kids[i], rest, u.kids[i])
    decreases |rest|, 4
  {
    hide Owned, Redacted, Matches;
    ArrayMatches(items, t);
    u := t;
    var n := items.Length;
    for i := 0 to n
      invariant u.ArrayTree? && u == ArrayTree(items, u.kids, t.foot) && Owned(u) && Matches(ArrayRef(items), u)
      invariant |u.kids| == |t.kids| == n && forall k | 0 <= k < i :: Redacted(t.kids[k], rest, u.kids[k])
      invariant forall k | i <= k < n :: u.kids[k] == t.kids[k]
    {
      u := RedactElement(items, i, rest, u);
    }
  }

  /** arr[i] = redactValue(arr[i], rest). */
  method RedactElement(arr: array<Node>, i: nat, rest: seq<Segment>, ghost t: Tree) returns (ghost u: Tree)
    requires Owned(t) && Matches(ArrayRef(arr), t) && i < arr.Length
    modifies Foot(t)
    ensures u.ArrayTree? && |u.kids| == |t.kids| == arr.Length && u == ArrayTree(arr, t.kids[i := u.kids[i]], t.foot)
    ensures Owned(u) && Matches(ArrayRef(arr), u) && Redacted(t.kids[i], rest, u.kids[i])
    decreases |rest|, 2
  {
    hide ValueOf, Owned, Redact.RedactValue;
    ArrayKids(t);
    var v;
    ghost var kid;
    v, kid := RedactValue(arr[i], rest, t.kids[i]);
    arr[i] := v;
    ArrayOwned(t, t.kids[i := kid]);
    u := ArrayTree(arr, t.kids[i := kid], t.foot);
  }

  /** for k := range v, in any order. */
  method RedactMembers(obj: ObjectNode, rest: seq<Segment>, ghost t: Tree) returns (ghost u: Tree)
    requires Owned(t) && Matches(ObjectRef(obj), t)
    modifies Foot(t)
    ensures u.ObjectTree? && u == ObjectTree(obj, u.members, t.foot) && Owned(u) && Matches(ObjectRef(obj), u)
    ensures u.members.Keys == t.members.Keys && forall k | k in u.members :: Redacted(t.members[k], rest, u.members[k])
    decreases |rest|, 4
  {
    hide Owned, Redacted, Matches;
    ObjectMatches(obj, t);
    u := t;
    var todo := obj.members.Keys;
    while todo != {}
      invariant u.ObjectTree? && u == ObjectTree(obj, u.members, t.foot) && Owned(u) && Matches(ObjectRef(obj), u)
      invariant todo <= u.members.Keys == t.members.Keys
      invariant forall k | k in u.members && k !in todo :: Redacted(t.members[k], rest, u.members[k])
      invariant forall k | k in todo :: u.members[k] == t.members[k]
      decreases |todo|
    {
      var k :| k in todo;
      u := RedactMember(obj, k, None, rest, u);
      todo := todo - {k};
    }
  }

  /** m[k] = redactValue(m[k], rest), or redactSelected when there is a bracket selector. */
  method RedactMember(m: ObjectNode, k: string, seg: Option<Segment>, rest: seq<Segment>, ghost t: Tree) returns (ghost u: Tree)
    requires Owned(t) && Matches(ObjectRef(m), t) && t.ObjectTree? && k in t.members
    modifies Foot(t)
    ensures u.ObjectTree? && k in u.members && u == ObjectTree(m, t.members[k := u.members[k]], t.foot)
    ensures Owned(u) && Matches(ObjectRef(m), u)
    ensures seg.None? ==> Redacted(t.members[k], rest, u.members[k])
    ensures seg.Some? ==> Selected(t.members[k], seg.value, rest, u.members[k])
    decreases |rest|, if seg.Some? then 7 else 3, 1
  {
    hide ValueOf, Owned, Matches, Redacted, Selected;
    ObjectMatches(m, t);
    ObjectKids(t);
    var v;
    ghost var kid;
    v, kid := RedactBelow(m.members[k], seg, rest, t.members[k]);
    m.members := m.members[k := v];
    ObjectOwned(t, t.members[k := kid]);
    ObjectMatched(m, t.members[k := kid], t.foot);
    u := ObjectTree(m, t.members[k := kid], t.foot);
  }

  /** The value that is assigned to a member. */
  method RedactBelow(val: Node, seg: Option<Segment>, rest: seq<Segment>, ghost t: Tree) returns (v: Node, ghost kid: Tree)
    requires Owned(t) && Matches(val, t)
    modifies Foot(t)
    ensures Owned(kid) && Foot(kid) <= Foot(t) && Matches(v, kid)
    ensures seg.None? ==> Redacted(t, rest, kid)
    ensures seg.Some? ==> Selected(t, seg.value, rest, kid)
    decreases |rest|, if seg.Some? then 7 else 3, 0
  {
    hide ValueOf, Owned, Matches, Redact.RedactValue, Redact.RedactSelected;
    if seg.None? {
      v, kid := RedactValue(val, rest, t);
    } else {
      v, kid := RedactSelected(val, seg.value, rest, t);
    }
  }

  // ---------------------------------------------------------------------------------------------
  // RedactResult
  // ---------------------------------------------------------------------------------------------

  function ParsedPaths(paths: seq<string>): Result<seq<seq<Segment>>> {
    if paths == [] then Ok([])
    else
      match PathOf(paths[0])
      case Err => Err
      case Ok(path) =>
        match ParsedPaths(paths[1..])
        case Err => Err
        case Ok(rest) => Ok([path] + rest)
  }

  method ParsePaths(paths: seq<string>) returns (r: Result<seq<seq<Segment>>>)
    ensures r == ParsedPaths(paths)
  {
    hide PathOf;
    var parsed := [];
    assert paths[0..] == paths;
    assert forall rest: seq<seq<Segment>> :: parsed + rest == rest;
    for i := 0 to |paths|
      invariant ParsedPaths(paths) == match ParsedPaths(paths[i..]) { case Ok(rest) => Ok(parsed + rest) case Err => Err }
    {
      assert paths[i..][0] == paths[i] && paths[i..][1..] == paths[i + 1..];
      var jp := NewJSONPath(paths[i]);
      if jp.Err? {
        return Err;
      }
      var before := parsed;
      parsed := parsed + [jp.value];
      assert forall rest: seq<seq<Segment>> :: before + ([jp.value] + rest) == parsed + rest;
    }
    assert paths[|paths|..] == [] && parsed + [] == parsed;
    return Ok(parsed);
  }

  /** What RedactResult returns: the body as it came, or the document that was redacted. */
  datatype Redaction = AsItCame | Document(root: Node)

  /**
   * RedactResult; decoded is what decoding the body gives. A path that does not parse fails the call: data is returned
   * only when every path was applied to it.
   */
  method RedactResult(decoded: Result<Node>, paths: seq<string>, ghost t: Tree) returns (r: Result<Redaction>, ghost u: Tree)
    requires Owned(t) && (decoded.Ok? ==> Matches(decoded.value, t))
    modifies Foot(t)
    ensures paths == [] ==> r == Ok(AsItCame)
    ensures paths != [] ==> (r.Ok? <==> decoded.Ok? && ParsedPaths(paths).Ok?)
    ensures paths != [] && r.Ok? ==>
              && r.value.Document? && Owned(u) && Foot(u) <= Foot(t) && Matches(r.value.root, u)
              && ValueOf(u) == Redact.RedactAll(ValueOf(t), ParsedPaths(paths).value)
  {
    hide ValueOf, Owned, PathOf, ParsedPaths, Redact.RedactValue, Redact.RedactAll;
    u := t;
    if |paths| == 0 {
      return Ok(AsItCame), u;
    }
    var parsed := ParsePaths(paths);
    if parsed.Err? {
      return Err, u;
    }
    if decoded.Err? {
      return Err, u;
    }
    var data := decoded.value;
    assert parsed.value[0..] == parsed.value;
    for i := 0 to |parsed.value|
      invariant Owned(u) && Foot(u) <= Foot(t) && Matches(data, u)
      invariant Redact.RedactAll(ValueOf(t), parsed.value) == Redact.RedactAll(ValueOf(u), parsed.value[i..])
    {
      ghost var before := ValueOf(u);
      data, u := RedactValue(data, parsed.value[i], u);
      OneMore(before, parsed.value, i);
    }
    assert parsed.value[|parsed.value|..] == [];
    NoneLeft(ValueOf(u));
    return Ok(Document(data)), u;
  }

  lemma OneMore(v: Json, paths: seq<seq<Segment>>, i: nat)
    requires i < |paths|
    ensures Redact.RedactAll(v, paths[i..]) == Redact.RedactAll(Redact.RedactValue(v, paths[i]), paths[i + 1..])
  {
    assert paths[i..][1..] == paths[i + 1..];
  }

  lemma NoneLeft(v: Json)
    ensures Redact.RedactAll(v, []) == v
  {
  }

  // ---------------------------------------------------------------------------------------------
  // The merged list of a tool: effectiveRedactPaths in internal/backend/restadapter.go
  // ---------------------------------------------------------------------------------------------

  /** The redact list of a response block; a block that is not given has none. */
  function ListOf(block: Option<seq<string>>): seq<string> {
    match block
    case None => []
    case Some(redact) => redact
  }

  method EffectiveRedactPaths(defaults: Option<seq<string>>, tool: Option<seq<string>>) returns (paths: seq<string>)
    ensures Distinct(paths)
    ensures forall p :: p in paths <==> p in ListOf(defaults) + ListOf(tool)
  {
    var seen: set<string> := {};
    paths, seen := AddPaths([], seen, defaults);
    paths, seen := AddPaths(paths, seen, tool);
  }

  method AddPaths(before: seq<string>, seenBefore: set<string>, block: Option<seq<string>>)
    returns (paths: seq<string>, seen: set<string>)
    requires Distinct(before) && forall p :: p in before <==> p in seenBefore
    ensures Distinct(paths) && before <= paths && forall p :: p in paths <==> p in seen
    ensures forall p :: p in paths <==> p in before || p in ListOf(block)
  {
    paths, seen := before, seenBefore;
    if block.None? {
      return;
    }
    var redact := block.value;
    for i := 0 to |redact|
      invariant Distinct(paths) && before <= paths && forall p :: p in paths <==> p in seen
      invariant forall p :: p in paths <==> p in before || p in redact[..i]
    {
      if redact[i] !in seen {
        seen := seen + {redact[i]};
        paths := paths + [redact[i]];
      }
      assert redact[..i + 1] == redact[..i] + [redact[i]];
    }
    assert redact[..|redact|] == redact;
  }

  lemma {:induction false} ParsedIs(paths: seq<string>, p: seq<Segment>)
    requires ParsedPaths(paths).Ok?
    ensures p in ParsedPaths(paths).value <==> exists e | e in paths :: PathOf(e) == Ok(p)
  {
    hide PathOf;
    if paths != [] {
      assert paths == [paths[0]] + paths[1..];
      ParsedIs(paths[1..], p);
      assert paths[0] in paths;
    }
  }

  lemma {:induction false} ParsedWhen(paths: seq<string>)
    ensures ParsedPaths(paths).Ok? <==> forall e | e in paths :: PathOf(e).Ok?
  {
    hide PathOf;
    if paths != [] {
      assert paths == [paths[0]] + paths[1..];
      ParsedWhen(paths[1..]);
      assert paths[0] in paths;
    }
  }

  /** The merged list redacts exactly what the defaults and then the tool redact: a tool can add, never remove. */
  lemma MergedRedactsBoth(v: Json, defaults: seq<string>, tool: seq<string>, merged: seq<string>)
    requires forall p :: p in merged <==> p in defaults + tool
    ensures ParsedPaths(merged).Ok? <==> ParsedPaths(defaults).Ok? && ParsedPaths(tool).Ok?
    ensures ParsedPaths(merged).Ok? ==>
              Redact.RedactAll(v, ParsedPaths(merged).value)
              == Redact.RedactAll(Redact.RedactAll(v, ParsedPaths(defaults).value), ParsedPaths(tool).value)
  {
    hide PathOf, Redact.RedactAll, ParsedPaths;
    ParsedWhen(merged);
    ParsedWhen(defaults);
    ParsedWhen(tool);
    if ParsedPaths(merged).Ok? {
      var m, d, t := ParsedPaths(merged).value, ParsedPaths(defaults).value, ParsedPaths(tool).value;
      forall p ensures p in m <==> p in d + t {
        ParsedIs(merged, p);
        ParsedIs(defaults, p);
        ParsedIs(tool, p);
      }
      Redact.OrderIsFree(v, m, d + t);
      AllOfTwo(v, d, t);
    }
  }

  lemma {:induction false} AllOfTwo(v: Json, a: seq<seq<Segment>>, b: seq<seq<Segment>>)
    ensures Redact.RedactAll(v, a + b) == Redact.RedactAll(Redact.RedactAll(v, a), b)
    decreases |a|
  {
    if a == [] {
      assert a + b == b;
    } else {
      assert (a + b)[1..] == a[1..] + b;
      AllOfTwo(Redact.RedactValue(v, a[0]), a[1..], b);
    }
  }
}
