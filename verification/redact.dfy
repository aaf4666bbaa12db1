// What response.redact does to a document: redactValue and redactSelected in internal/dadl/redact.go as functions of
// the document, and the laws the merged redact lists rely on. The walk that overwrites the document is RedactInPlace.
module Redact {
  import opened Text
  import opened JsonPath

  const PLACEHOLDER := Str("[REDACTED]")

  // ---------------------------------------------------------------------------------------------
  // The walker that replaces
  // ---------------------------------------------------------------------------------------------

  function RedactValue(data: Json, segs: seq<Segment>): Json
    decreases |segs|, 0
  {
    if segs == [] then PLACEHOLDER
    else
      var seg, rest := segs[0], segs[1..];
      if seg.field != "" then
        if data.Object? && seg.field in data.members then
          var val := data.members[seg.field];
          var new_ := if seg.index.None? && !seg.wildcard then RedactValue(val, rest) else RedactSelected(val, seg, rest);
          Object(data.members[seg.field := new_])
        else data
      else RedactSelected(data, seg, rest)
  }

  function RedactSelected(val: Json, seg: Segment, rest: seq<Segment>): Json
    decreases |rest|, 1
  {
    if seg.wildcard then
      match val
      case Array(items) => Array(seq(|items|, i requires 0 <= i < |items| => RedactValue(items[i], rest)))
      case Object(members) => Object(map k | k in members :: RedactValue(members[k], rest))
      case _ => val
    else if seg.index.Some? then
      if val.Array? && Resolve(|val.items|, seg.index.value).Some? then
        var i := Resolve(|val.items|, seg.index.value).value;
        Array(val.items[i := RedactValue(val.items[i], rest)])
      else val
    else RedactValue(val, rest)
  }

  /** The loop of RedactResult over its paths. */
  function RedactAll(data: Json, paths: seq<seq<Segment>>): Json
    decreases |paths|
  {
    if paths == [] then data else RedactAll(RedactValue(data, paths[0]), paths[1..])
  }

  // ---------------------------------------------------------------------------------------------
  // The same, child by child
  // ---------------------------------------------------------------------------------------------

  /** Equal but for the children: scalars are equal, arrays as long as each other, objects have the same names. */
  predicate SameShape(a: Json, b: Json) {
    match a
    case Array(items) => b.Array? && |items| == |b.items|
    case Object(members) => b.Object? && members.Keys == b.members.Keys
    case _ => a == b
  }

  lemma ByChildren(a: Json, b: Json)
    requires SameShape(a, b) && forall step | Has(a, step) :: Child(a, step) == Child(b, step)
    ensures a == b
  {
    match a
    case Array(items) =>
      assert forall i | 0 <= i < |items| :: Has(a, Element(i)) && items[i] == Child(a, Element(i));
      assert items == b.items;
    case Object(members) =>
      assert forall k | k in members :: Has(a, Member(k)) && members[k] == Child(a, Member(k));
      assert members == b.members;
    case _ =>
  }

  /** Puts the placeholder at every position the selectors pick. */
  function Masked(v: Json, sels: seq<Selector>): Json
    decreases |sels|
  {
    if sels == [] then PLACEHOLDER
    else
      match v
      case Array(items) =>
        Array(seq(|items|, i requires 0 <= i < |items| =>
          if Picks(sels[0], v, Element(i)) then Masked(items[i], sels[1..]) else items[i]))
      case Object(members) =>
        Object(map k | k in members :: if Picks(sels[0], v, Member(k)) then Masked(members[k], sels[1..]) else members[k])
      case _ => v
  }

  lemma {:induction false} MaskedChild(v: Json, sels: seq<Selector>)
    requires sels != []
    ensures SameShape(v, Masked(v, sels)) && SameShape(Masked(v, sels), v)
    ensures forall step :: Has(v, step) <==> Has(Masked(v, sels), step)
    ensures forall step | Has(v, step) ::
              Child(Masked(v, sels), step) == if Picks(sels[0], v, step) then Masked(Child(v, step), sels[1..]) else Child(v, step)
    ensures forall sel, step :: Picks(sel, v, step) <==> Picks(sel, Masked(v, sels), step)
  {
  }

  /** The code computes Masked. */
  lemma {:induction false} RedactIsMasked(v: Json, segs: seq<Segment>)
    ensures RedactValue(v, segs) == Masked(v, Selectors(segs))
    decreases |segs|, 0
  {
    if segs != [] {
      var seg, rest := segs[0], segs[1..];
      var bracket := seg.(field := "");
      var sels := Selectors(segs);
      assert sels == SelectorsOf(seg) + Selectors(rest);
      if seg.field != "" {
        assert sels == [Name(seg.field)] + (SelectorsOf(bracket) + Selectors(rest));
        assert sels[1..] == SelectorsOf(bracket) + Selectors(rest);
        if v.Object? && seg.field in v.members {
          SelectedIsMasked(v.members[seg.field], seg, rest);
        }
        FieldIsMasked(v, segs, sels);
      } else {
        SelectedIsMasked(v, seg, rest);
      }
    }
  }

  /** The branch that resolves a field. */
  lemma {:induction false} FieldIsMasked(v: Json, segs: seq<Segment>, sels: seq<Selector>)
    requires segs != [] && segs[0].field != "" && sels != [] && sels[0] == Name(segs[0].field)
    requires v.Object? && segs[0].field in v.members ==>
               RedactSelected(v.members[segs[0].field], segs[0], segs[1..]) == Masked(v.members[segs[0].field], sels[1..])
    ensures RedactValue(v, segs) == Masked(v, sels)
  {
    MaskedChild(v, sels);
    hide Masked;
    ByChildren(RedactValue(v, segs), Masked(v, sels));
  }

  lemma {:induction false} SelectedIsMasked(v: Json, seg: Segment, rest: seq<Segment>)
    ensures RedactSelected(v, seg, rest) == Masked(v, SelectorsOf(seg.(field := "")) + Selectors(rest))
    decreases |rest|, 1
  {
    hide RedactValue;
    var bracket := SelectorsOf(seg.(field := ""));
    var sels := bracket + Selectors(rest);
    if bracket == [] {
      assert sels == Selectors(rest);
      RedactIsMasked(v, rest);
    } else {
      assert sels[1..] == Selectors(rest);
      forall step | Has(v, step) {
        RedactIsMasked(Child(v, step), rest);
      }
      MaskedChild(v, sels);
      ByChildren(RedactSelected(v, seg, rest), Masked(v, sels));
    }
  }

  // ---------------------------------------------------------------------------------------------
  // Two paths
  // ---------------------------------------------------------------------------------------------

  /** Masking by two paths gives the same in either order. */
  lemma {:induction false} MaskingCommutes(v: Json, p: seq<Selector>, q: seq<Selector>)
    ensures Masked(Masked(v, p), q) == Masked(Masked(v, q), p)
    decreases |p|
  {
    if p != [] && q != [] {
      MaskedChild(v, p);
      MaskedChild(v, q);
      MaskedChild(Masked(v, p), q);
      MaskedChild(Masked(v, q), p);
      forall step | Has(v, step)
        ensures Child(Masked(Masked(v, p), q), step) == Child(Masked(Masked(v, q), p), step)
      {
        MaskingCommutes(Child(v, step), p[1..], q[1..]);
      }
      ByChildren(Masked(Masked(v, p), q), Masked(Masked(v, q), p));
    }
  }

  /** Masking twice by the same path changes nothing more. */
  lemma {:induction false} MaskingIdempotent(v: Json, p: seq<Selector>)
    ensures Masked(Masked(v, p), p) == Masked(v, p)
    decreases |p|
  {
    if p != [] {
      MaskedChild(v, p);
      MaskedChild(Masked(v, p), p);
      forall step | Has(v, step)
        ensures Child(Masked(Masked(v, p), p), step) == Child(Masked(v, p), step)
      {
        MaskingIdempotent(Child(v, step), p[1..]);
      }
      ByChildren(Masked(Masked(v, p), p), Masked(v, p));
    }
  }

  /** A document is unchanged by masking exactly when the placeholder is all the path selects in it. */
  lemma {:induction false} FixedExactly(v: Json, p: seq<Selector>)
    ensures Masked(v, p) == v <==> forall node | IsNode(v, p, node) :: node == PLACEHOLDER
    decreases |p|
  {
    hide IsNode, Masked;
    if p == [] {
      RootNode(v, v);
      forall node { RootNode(v, node); }
      MaskedRoot(v);
    } else {
      MaskedChild(v, p);
      forall step | Has(v, step) { FixedExactly(Child(v, step), p[1..]); }
      forall node { NodeStep(v, p, node); }
      if forall node | IsNode(v, p, node) :: node == PLACEHOLDER {
        ByChildren(Masked(v, p), v);
      }
    }
  }

  lemma MaskedRoot(v: Json)
    ensures Masked(v, []) == PLACEHOLDER
  {
  }

  // ---------------------------------------------------------------------------------------------
  // What was at a selected position has no influence, everything else stays
  // ---------------------------------------------------------------------------------------------

  /** v with x in place of what is at pos. */
  function Put(v: Json, pos: seq<Step>, x: Json): Json
    requires Exists(v, pos)
  {
    if pos == [] then x
    else
      var child := Put(Child(v, pos[0]), pos[1..], x);
      match pos[0]
      case Member(name) => Object(v.members[name := child])
      case Element(at) => Array(v.items[at := child])
  }

  lemma PutChild(v: Json, pos: seq<Step>, x: Json)
    requires pos != [] && Exists(v, pos)
    ensures SameShape(v, Put(v, pos, x))
    ensures forall step :: Has(v, step) <==> Has(Put(v, pos, x), step)
    ensures forall step | Has(v, step) ::
              Child(Put(v, pos, x), step) == if step == pos[0] then Put(Child(v, step), pos[1..], x) else Child(v, step)
    ensures forall sel, step :: Picks(sel, v, step) <==> Picks(sel, Put(v, pos, x), step)
  {
  }

  lemma {:induction false} PutSelected(v: Json, p: seq<Selector>, pos: seq<Step>, x: Json)
    requires Selects(v, p, pos) && Exists(v, pos)
    ensures Masked(Put(v, pos, x), p) == Masked(v, p)
    decreases |p|
  {
    if p != [] {
      PutChild(v, pos, x);
      MaskedChild(v, p);
      MaskedChild(Put(v, pos, x), p);
      PutSelected(Child(v, pos[0]), p[1..], pos[1..], x);
      ByChildren(Masked(Put(v, pos, x), p), Masked(v, p));
    }
  }

  /** Neither pos nor a position above it is selected. */
  ghost predicate Outside(v: Json, p: seq<Selector>, pos: seq<Step>) {
    forall k | 0 <= k <= |pos| :: !Selects(v, p, pos[..k])
  }

  lemma OutsideStep(v: Json, p: seq<Selector>, pos: seq<Step>)
    requires Outside(v, p, pos) && pos != [] && p != [] && Picks(p[0], v, pos[0])
    ensures Outside(Child(v, pos[0]), p[1..], pos[1..])
  {
    forall k | 0 <= k <= |pos[1..]|
      ensures !Selects(Child(v, pos[0]), p[1..], pos[1..][..k])
    {
      assert !Selects(v, p, pos[..k + 1]);
      assert pos[..k + 1][1..] == pos[1..][..k];
    }
  }

  /** Masking keeps the shape at every position outside, and every other path selects the same there. */
  lemma {:induction false} OutsideKept(v: Json, p: seq<Selector>, pos: seq<Step>)
    requires Outside(v, p, pos) && Exists(v, pos)
    ensures Exists(Masked(v, p), pos) && SameShape(Get(v, pos), Get(Masked(v, p), pos))
    decreases |pos|
  {
    assert pos[..0] == [];
    assert p != [];
    MaskedChild(v, p);
    if pos != [] {
      if Picks(p[0], v, pos[0]) {
        OutsideStep(v, p, pos);
        OutsideKept(Child(v, pos[0]), p[1..], pos[1..]);
      } else {
        ShapeRefl(Get(v, pos));
      }
    }
  }

  lemma ShapeRefl(v: Json)
    ensures SameShape(v, v)
  {
  }

  lemma {:induction false} OutsideSelects(v: Json, p: seq<Selector>, pos: seq<Step>, q: seq<Selector>)
    requires Outside(v, p, pos) && Exists(v, pos)
    ensures Selects(v, q, pos) <==> Selects(Masked(v, p), q, pos)
    decreases |pos|
  {
    assert pos[..0] == [];
    assert p != [];
    MaskedChild(v, p);
    if pos != [] && q != [] && Picks(p[0], v, pos[0]) {
      OutsideStep(v, p, pos);
      OutsideSelects(Child(v, pos[0]), p[1..], pos[1..], q[1..]);
    }
  }

  // ---------------------------------------------------------------------------------------------
  // Lists of paths
  // ---------------------------------------------------------------------------------------------

  lemma RedactCommutes(v: Json, p: seq<Segment>, q: seq<Segment>)
    ensures RedactValue(RedactValue(v, p), q) == RedactValue(RedactValue(v, q), p)
  {
    hide RedactValue, Masked;
    RedactIsMasked(v, p);
    RedactIsMasked(v, q);
    RedactIsMasked(RedactValue(v, p), q);
    RedactIsMasked(RedactValue(v, q), p);
    MaskingCommutes(v, Selectors(p), Selectors(q));
  }

  lemma RedactIdempotent(v: Json, p: seq<Segment>)
    ensures RedactValue(RedactValue(v, p), p) == RedactValue(v, p)
  {
    hide RedactValue, Masked;
    RedactIsMasked(v, p);
    RedactIsMasked(RedactValue(v, p), p);
    MaskingIdempotent(v, Selectors(p));
  }

  /** One more path first or last gives the same. */
  lemma {:induction false} MoveLast(v: Json, p: seq<Segment>, paths: seq<seq<Segment>>)
    ensures RedactAll(RedactValue(v, p), paths) == RedactValue(RedactAll(v, paths), p)
    decreases |paths|
  {
    if paths != [] {
      RedactCommutes(v, p, paths[0]);
      MoveLast(RedactValue(v, paths[0]), p, paths[1..]);
    }
  }

  /** A path of the list has been applied: applying it before or after changes nothing. */
  lemma {:induction false} Absorbed(v: Json, p: seq<Segment>, paths: seq<seq<Segment>>)
    requires p in paths
    ensures RedactValue(RedactAll(v, paths), p) == RedactAll(v, paths)
    ensures RedactAll(RedactValue(v, p), paths) == RedactAll(v, paths)
    decreases |paths|
  {
    MoveLast(v, p, paths);
    if p == paths[0] {
      MoveLast(v, p, paths[1..]);
      RedactIdempotent(RedactAll(v, paths[1..]), p);
    } else {
      Absorbed(RedactValue(v, paths[0]), p, paths[1..]);
    }
  }

  lemma {:induction false} AbsorbedAll(v: Json, a: seq<seq<Segment>>, b: seq<seq<Segment>>)
    requires forall p | p in a :: p in b
    ensures RedactAll(RedactAll(v, b), a) == RedactAll(v, b)
    decreases |a|
  {
    if a != [] {
      Absorbed(v, a[0], b);
      AbsorbedAll(v, a[1..], b);
    }
  }

  lemma {:induction false} ListsCommute(v: Json, a: seq<seq<Segment>>, b: seq<seq<Segment>>)
    ensures RedactAll(RedactAll(v, a), b) == RedactAll(RedactAll(v, b), a)
    decreases |a|
  {
    if a != [] {
      ListsCommute(RedactValue(v, a[0]), a[1..], b);
      MoveLast(v, a[0], b);
    }
  }

  /** The order of the paths and repetitions do not matter. */
  lemma OrderIsFree(v: Json, a: seq<seq<Segment>>, b: seq<seq<Segment>>)
    requires forall p :: p in a <==> p in b
    ensures RedactAll(v, a) == RedactAll(v, b)
  {
    AbsorbedAll(v, a, b);
    AbsorbedAll(v, b, a);
    ListsCommute(v, a, b);
  }

  /** A longer list redacts what a shorter one does: nothing is taken back. */
  lemma NeverTakenBack(v: Json, a: seq<seq<Segment>>, b: seq<seq<Segment>>)
    requires forall p | p in a :: p in b
    ensures RedactAll(RedactAll(v, a), b) == RedactAll(v, b)
  {
    AbsorbedAll(v, a, b);
    ListsCommute(v, a, b);
  }

  /** After redaction the placeholder is all that collectNodes finds for any of the paths. */
  lemma RedactionComplete(v: Json, paths: seq<seq<Segment>>, p: seq<Segment>, node: Json)
    requires p in paths && node in CollectNodes(RedactAll(v, paths), p)
    ensures node == PLACEHOLDER
  {
    hide RedactAll, RedactValue, Masked, CollectNodes, IsNode;
    var out := RedactAll(v, paths);
    Absorbed(v, p, paths);
    RedactIsMasked(out, p);
    CollectsExactly(out, p, node);
    FixedExactly(out, Selectors(p));
  }

  /** The value at a selected position has no influence on the result. */
  lemma RedactionHides(v: Json, paths: seq<seq<Segment>>, p: seq<Segment>, pos: seq<Step>, x: Json)
    requires p in paths && Exists(v, pos) && Selects(v, Selectors(p), pos)
    ensures RedactAll(Put(v, pos, x), paths) == RedactAll(v, paths)
  {
    hide RedactAll, RedactValue, Masked, Selects, Put;
    Absorbed(v, p, paths);
    Absorbed(Put(v, pos, x), p, paths);
    RedactIsMasked(v, p);
    RedactIsMasked(Put(v, pos, x), p);
    PutSelected(v, Selectors(p), pos, x);
  }

  /** A position that no path selects, nor one above it, keeps what is there but for what is redacted below. */
  lemma {:induction false} RedactionKeeps(v: Json, paths: seq<seq<Segment>>, pos: seq<Step>)
    requires Exists(v, pos) && forall p | p in paths :: Outside(v, Selectors(p), pos)
    ensures Exists(RedactAll(v, paths), pos) && SameShape(Get(v, pos), Get(RedactAll(v, paths), pos))
    decreases |paths|
  {
    if paths == [] {
      ShapeRefl(Get(v, pos));
    } else {
      hide RedactValue, Masked, Selects;
      var first := Selectors(paths[0]);
      RedactIsMasked(v, paths[0]);
      OutsideKept(v, first, pos);
      forall p | p in paths[1..]
        ensures Outside(Masked(v, first), Selectors(p), pos)
      {
        StaysOutside(v, first, Selectors(p), pos);
      }
      RedactionKeeps(RedactValue(v, paths[0]), paths[1..], pos);
    }
  }

  lemma StaysOutside(v: Json, p: seq<Selector>, q: seq<Selector>, pos: seq<Step>)
    requires Exists(v, pos) && Outside(v, p, pos) && Outside(v, q, pos)
    ensures Outside(Masked(v, p), q, pos)
  {
    hide Masked, Selects;
    forall k | 0 <= k <= |pos|
      ensures !Selects(Masked(v, p), q, pos[..k])
    {
      PrefixExists(v, pos, k);
      assert Outside(v, p, pos[..k]) by {
        assert forall i | 0 <= i <= k :: pos[..k][..i] == pos[..i];
      }
      OutsideSelects(v, p, pos[..k], q);
      assert !Selects(v, q, pos[..k]);
    }
  }

  lemma {:induction false} PrefixExists(v: Json, pos: seq<Step>, k: nat)
    requires Exists(v, pos) && k <= |pos|
    ensures Exists(v, pos[..k])
    decreases k
  {
    if k > 0 {
      PrefixExists(Child(v, pos[0]), pos[1..], k - 1);
      assert pos[..k][1..] == pos[1..][..k - 1];
    }
  }
}
