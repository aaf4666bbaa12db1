// JSON documents and JSONPath selection: collectNodes and Extract in internal/dadl/jsonpath.go.
module JsonPath {
  import opened Text
  import opened SortedStrings

  datatype Json =
    | Null
    | Bool(value: bool)
    | Number(literal: string)
    | Str(text: string)
    | Array(items: seq<Json>)
    | Object(members: map<string, Json>)

  /** field "" stands for no field. The parser never sets both index and wildcard; the walkers do not rely on it. */
  datatype Segment = Segment(field: string, index: Option<int>, wildcard: bool)

  // ---------------------------------------------------------------------------------------------
  // sortedKeys
  // ---------------------------------------------------------------------------------------------

  predicate IsLeast(keys: set<string>, k: string) {
    k in keys && forall x | x in keys :: x == k || Less(k, x)
  }

  lemma {:induction false} HasLeast(keys: set<string>) returns (k: string)
    requires keys != {}
    ensures IsLeast(keys, k)
    decreases |keys|
  {
    k :| k in keys;
    var rest := keys - {k};
    if rest != {} {
      var other := HasLeast(rest);
      LessTotal(k, other);
      forall x | x in rest && Less(k, other) ensures Less(k, x) {
        if x != other {
          LessTransitive(k, other, x);
        }
      }
      if Less(other, k) {
        k := other;
      }
    }
  }

  lemma LeastUnique(keys: set<string>, a: string, b: string)
    requires IsLeast(keys, a) && IsLeast(keys, b)
    ensures a == b
  {
    if a != b {
      LessTransitive(a, b, a);
      LessIrreflexive(a);
    }
  }

  function Least(keys: set<string>): (k: string)
    requires keys != {}
    ensures IsLeast(keys, k)
  {
    assert exists k :: IsLeast(keys, k) by {
      var k := HasLeast(keys);
    }
    assert forall a, b | IsLeast(keys, a) && IsLeast(keys, b) :: a == b by {
      forall a, b | IsLeast(keys, a) && IsLeast(keys, b) ensures a == b { LeastUnique(keys, a, b); }
    }
    var k :| IsLeast(keys, k);
    k
  }

  function SortedKeys(keys: set<string>): (r: seq<string>)
    ensures Ascending(r) && forall x :: x in r <==> x in keys
    decreases |keys|
  {
    if keys == {} then []
    else
      var k := Least(keys);
      var rest := SortedKeys(keys - {k});
      assert forall i | 0 <= i < |rest| :: rest[i] in rest;
      [k] + rest
  }

  // ---------------------------------------------------------------------------------------------
  // The walker that collects
  // ---------------------------------------------------------------------------------------------

  /** The position an index selects in an array of n elements; a negative index counts from the end. */
  function Resolve(n: nat, index: int): Option<nat> {
    var i := if index < 0 then n + index else index;
    if i < 0 || i >= n then None else Some(i)
  }

  function CollectNodes(data: Json, segs: seq<Segment>): seq<Json>
    decreases |segs|, 0
  {
    if segs == [] then [data]
    else
      var seg, rest := segs[0], segs[1..];
      if seg.field != "" then
        if data.Object? && seg.field in data.members then CollectSelected(data.members[seg.field], seg, rest) else []
      else CollectSelected(data, seg, rest)
  }

  function CollectSelected(current: Json, seg: Segment, rest: seq<Segment>): seq<Json>
    decreases |rest|, 2
  {
    if seg.wildcard then
      match current
      case Array(items) => CollectEach(items, rest)
      case Object(members) => CollectEach(InKeyOrder(members, SortedKeys(members.Keys)), rest)
      case _ => []
    else if seg.index.Some? then
      if current.Array? && Resolve(|current.items|, seg.index.value).Some?
      then CollectNodes(current.items[Resolve(|current.items|, seg.index.value).value], rest)
      else []
    else CollectNodes(current, rest)
  }

  function InKeyOrder(members: map<string, Json>, keys: seq<string>): (r: seq<Json>)
    requires forall k | k in keys :: k in members
    ensures |r| == |keys| && forall i | 0 <= i < |keys| :: r[i] == members[keys[i]]
  {
    seq(|keys|, i requires 0 <= i < |keys| => members[keys[i]])
  }

  function CollectEach(items: seq<Json>, segs: seq<Segment>): seq<Json>
    decreases |segs|, 1, |items|
  {
    if items == [] then [] else CollectNodes(items[0], segs) + CollectEach(items[1..], segs)
  }

  predicate HasWildcard(segs: seq<Segment>) {
    exists i | 0 <= i < |segs| :: segs[i].wildcard
  }

  /**
   * Extract: without a wildcard the one node the path selects, an error exactly when there is none; with a wildcard the
   * list of the nodes.
   */
  method Extract(data: Json, segs: seq<Segment>) returns (r: Result<Json>)
    ensures (exists seg | seg in segs :: seg.wildcard) ==> r == Ok(Array(CollectNodes(data, segs)))
    ensures (forall seg | seg in segs :: !seg.wildcard) ==> CollectNodes(data, segs) == match r { case Ok(node) => [node] case Err => [] }
  {
    if HasWildcard(segs) {
      return Ok(Array(CollectNodes(data, segs)));
    }
    var current := data;
    for k := 0 to |segs|
      invariant CollectNodes(data, segs) == CollectNodes(current, segs[k..])
    {
      var seg := segs[k];
      assert segs[k..][0] == seg && segs[k..][1..] == segs[k + 1..];
      assert !seg.wildcard;
      if seg.field != "" {
        if !current.Object? || seg.field !in current.members {
          return Err;
        }
        current := current.members[seg.field];
      }
      assert CollectNodes(data, segs) == CollectSelected(current, seg, segs[k + 1..]);
      if seg.index.Some? {
        if !current.Array? {
          return Err;
        }
        var n := |current.items|;
        var idx := seg.index.value;
        if idx < 0 {
          idx := n + idx;
        }
        if idx < 0 || idx >= n {
          return Err;
        }
        current := current.items[idx];
      }
    }
    return Ok(current);
  }

  // ---------------------------------------------------------------------------------------------
  // Which positions a path selects (sections 2.3.1 to 2.3.3 of RFC 9535)
  // ---------------------------------------------------------------------------------------------

  datatype Selector = Name(name: string) | Index(index: int) | Wild

  datatype Step = Member(name: string) | Element(at: nat)

  /** A segment is a name selector, a bracket selector, or one after the other. */
  function SelectorsOf(seg: Segment): seq<Selector> {
    (if seg.field != "" then [Name(seg.field)] else [])
    + (if seg.wildcard then [Wild] else if seg.index.Some? then [Index(seg.index.value)] else [])
  }

  function Selectors(segs: seq<Segment>): seq<Selector> {
    if segs == [] then [] else SelectorsOf(segs[0]) + Selectors(segs[1..])
  }

  predicate Has(v: Json, step: Step) {
    match step
    case Member(name) => v.Object? && name in v.members
    case Element(at) => v.Array? && at < |v.items|
  }

  function Child(v: Json, step: Step): Json
    requires Has(v, step)
  {
    match step
    case Member(name) => v.members[name]
    case Element(at) => v.items[at]
  }

  /** An index counts elements from the start, or from the end: -1 is the last. */
  predicate Picks(sel: Selector, v: Json, step: Step) {
    && Has(v, step)
    && match sel
       case Wild => true
       case Name(name) => step == Member(name)
       case Index(index) => step.Element? && (index == step.at || index == step.at - |Elements(v)|)
  }

  function Elements(v: Json): seq<Json> {
    if v.Array? then v.items else []
  }

  /** The nth element is the one at n - 1, the nth from the end is the one at the length minus n, and there are no others. */
  lemma IndexExactly(items: seq<Json>, index: int, at: nat)
    ensures Picks(Index(index), Array(items), Element(at))
       <==> at < |items| && at == if index >= 0 then index else |items| + index
    ensures Resolve(|items|, index) == Some(at) <==> Picks(Index(index), Array(items), Element(at))
    ensures Resolve(|items|, index) == None <==> index >= |items| || index < -|items|
  {
  }

  /** pos is one of the positions the selectors pick, one step each. */
  predicate Selects(v: Json, sels: seq<Selector>, pos: seq<Step>) {
    if sels == [] then pos == []
    else pos != [] && Picks(sels[0], v, pos[0]) && Selects(Child(v, pos[0]), sels[1..], pos[1..])
  }

  predicate Exists(v: Json, pos: seq<Step>) {
    pos == [] || (Has(v, pos[0]) && Exists(Child(v, pos[0]), pos[1..]))
  }

  function Get(v: Json, pos: seq<Step>): Json
    requires Exists(v, pos)
  {
    if pos == [] then v else Get(Child(v, pos[0]), pos[1..])
  }

  lemma {:induction false} SelectedExists(v: Json, sels: seq<Selector>, pos: seq<Step>)
    requires Selects(v, sels, pos)
    ensures Exists(v, pos) && |pos| == |sels|
    decreases |sels|
  {
    if sels != [] {
      SelectedExists(Child(v, pos[0]), sels[1..], pos[1..]);
    }
  }

  ghost predicate IsNode(v: Json, sels: seq<Selector>, node: Json) {
    exists pos :: Selects(v, sels, pos) && Exists(v, pos) && Get(v, pos) == node
  }

  /** The nodes below one more step. */
  lemma {:induction false} NodeStep(v: Json, sels: seq<Selector>, node: Json)
    requires sels != []
    ensures IsNode(v, sels, node)
        <==> exists step :: Picks(sels[0], v, step) && IsNode(Child(v, step), sels[1..], node)
  {
    if IsNode(v, sels, node) {
      var pos :| Selects(v, sels, pos) && Exists(v, pos) && Get(v, pos) == node;
      assert Selects(Child(v, pos[0]), sels[1..], pos[1..]);
      assert IsNode(Child(v, pos[0]), sels[1..], node);
    }
    if step :| Picks(sels[0], v, step) && IsNode(Child(v, step), sels[1..], node) {
      var pos :| Selects(Child(v, step), sels[1..], pos) && Exists(Child(v, step), pos) && Get(Child(v, step), pos) == node;
      var whole := [step] + pos;
      assert whole[1..] == pos;
      assert Selects(v, sels, whole) && Exists(v, whole) && Get(v, whole) == node;
    }
  }

  lemma RootNode(v: Json, node: Json)
    ensures IsNode(v, [], node) <==> node == v
  {
    if node == v {
      assert Selects(v, [], []) && Exists(v, []) && Get(v, []) == node;
    }
  }

  lemma {:induction false} EachNode(items: seq<Json>, segs: seq<Segment>, node: Json)
    ensures node in CollectEach(items, segs) <==> exists i | 0 <= i < |items| :: node in CollectNodes(items[i], segs)
    decreases |items|
  {
    if items != [] {
      EachNode(items[1..], segs, node);
      assert forall i | 1 <= i < |items| :: items[i] == items[1..][i - 1];
      assert items[0] == items[0];
      if node in CollectEach(items[1..], segs) {
        var i :| 0 <= i < |items[1..]| && node in CollectNodes(items[1..][i], segs);
        assert node in CollectNodes(items[i + 1], segs);
      }
    }
  }

  /** collectNodes finds exactly the values at the selected positions. */
  lemma {:induction false} CollectsExactly(v: Json, segs: seq<Segment>, node: Json)
    ensures node in CollectNodes(v, segs) <==> IsNode(v, Selectors(segs), node)
    decreases |segs|, 0
  {
    hide IsNode;
    if segs == [] {
      RootNode(v, node);
    } else {
      var seg, rest := segs[0], segs[1..];
      var bracket := seg.(field := "");
      var sels := Selectors(segs);
      assert Selectors(segs) == SelectorsOf(seg) + Selectors(rest);
      if seg.field != "" {
        assert sels == [Name(seg.field)] + (SelectorsOf(bracket) + Selectors(rest));
        assert sels[1..] == SelectorsOf(bracket) + Selectors(rest);
        NodeStep(v, sels, node);
        if Picks(sels[0], v, Member(seg.field)) {
          CollectedSelected(v.members[seg.field], seg, rest, node);
        }
      } else {
        CollectedSelected(v, seg, rest, node);
      }
    }
  }

  lemma {:induction false} CollectedSelected(v: Json, seg: Segment, rest: seq<Segment>, node: Json)
    ensures node in CollectSelected(v, seg, rest) <==> IsNode(v, SelectorsOf(seg.(field := "")) + Selectors(rest), node)
    decreases |rest|, 1
  {
    hide IsNode, CollectNodes, CollectEach, Selectors;
    var bracket := SelectorsOf(seg.(field := ""));
    var sels := bracket + Selectors(rest);
    if bracket == [] {
      assert sels == Selectors(rest);
      CollectsExactly(v, rest, node);
    } else {
      assert sels[1..] == Selectors(rest);
      NodeStep(v, sels, node);
      forall step | Has(v, step) {
        CollectsExactly(Child(v, step), rest, node);
      }
      if !seg.wildcard {
        if v.Array? && Resolve(|v.items|, seg.index.value).Some? {
          var e := Element(Resolve(|v.items|, seg.index.value).value);
          assert forall step | Picks(sels[0], v, step) :: step == e;
          assert Picks(sels[0], v, e);
        }
      } else if v.Array? {
        assert sels[0] == Wild;
        EachNode(v.items, rest, node);
        WildElements(v, rest, node);
      } else if v.Object? {
        assert sels[0] == Wild;
        var keys := SortedKeys(v.members.Keys);
        var values := InKeyOrder(v.members, keys);
        EachNode(values, rest, node);
        WildMembers(v, keys, values, rest, node);
      }
    }
  }

  lemma {:induction false} WildElements(v: Json, rest: seq<Segment>, node: Json)
    requires v.Array?
    requires forall step | Has(v, step) :: node in CollectNodes(Child(v, step), rest) <==> IsNode(Child(v, step), Selectors(rest), node)
    ensures (exists i | 0 <= i < |v.items| :: node in CollectNodes(v.items[i], rest))
        <==> exists step :: Picks(Wild, v, step) && IsNode(Child(v, step), Selectors(rest), node)
  {
    hide IsNode, CollectNodes, Selectors;
    if i :| 0 <= i < |v.items| && node in CollectNodes(v.items[i], rest) {
      assert Picks(Wild, v, Element(i)) && Child(v, Element(i)) == v.items[i];
    }
    if step :| Picks(Wild, v, step) && IsNode(Child(v, step), Selectors(rest), node) {
      assert node in CollectNodes(v.items[step.at], rest);
    }
  }

  lemma {:induction false} WildMembers(v: Json, keys: seq<string>, values: seq<Json>, rest: seq<Segment>, node: Json)
    requires v.Object? && keys == SortedKeys(v.members.Keys) && values == InKeyOrder(v.members, keys)
    requires forall step | Has(v, step) :: node in CollectNodes(Child(v, step), rest) <==> IsNode(Child(v, step), Selectors(rest), node)
    ensures (exists i | 0 <= i < |values| :: node in CollectNodes(values[i], rest))
        <==> exists step :: Picks(Wild, v, step) && IsNode(Child(v, step), Selectors(rest), node)
  {
    hide IsNode, CollectNodes, Selectors;
    if i :| 0 <= i < |values| && node in CollectNodes(values[i], rest) {
      assert keys[i] in keys;
      assert Picks(Wild, v, Member(keys[i])) && Child(v, Member(keys[i])) == values[i];
    }
    if step :| Picks(Wild, v, step) && IsNode(Child(v, step), Selectors(rest), node) {
      var i :| 0 <= i < |keys| && keys[i] == step.name;
      assert node in CollectNodes(values[i], rest);
    }
  }
}
