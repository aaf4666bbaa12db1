// Nesting dotted keys as a function of the body and of the order in which the map is walked: nestDottedKeys and
// insertNested in internal/backend/restadapter.go. The walk that updates the maps in place is NestInPlace.
module NestKeys {
  import opened Text
  import opened JsonPath
  import opened JsonPathSyntax

  type Members = map<string, Json>

  predicate Dotted(k: string) {
    '.' in k
  }

  /** insertNested: None is a collision. */
  function InsertNested(root: Members, parts: seq<string>, val: Json): Option<Members>
    requires parts != []
    decreases |parts|
  {
    var p := parts[0];
    if |parts| == 1 then
      if p in root then None else Some(root[p := val])
    else if p in root && !root[p].Object? then None
    else
      match InsertNested(if p in root then root[p].members else map[], parts[1..], val)
      case None => None
      case Some(child) => Some(root[p := Object(child)])
  }

  /** One round of the second loop of nestDottedKeys. */
  function Round(root: Members, k: string, val: Json): Members {
    match InsertNested(root, SplitDots(k), val)
    case None => root[k := val]
    case Some(nested) => nested
  }

  function Plain(flat: Members): Members {
    map k | k in flat && !Dotted(k) :: flat[k]
  }

  /** The second loop, in this order. */
  function NestFrom(root: Members, flat: Members, order: seq<string>): Members
    requires forall k | k in order :: k in flat
    decreases |order|
  {
    if order == [] then root else NestFrom(Round(root, order[0], flat[order[0]]), flat, order[1..])
  }

  /** The dotted keys, each once. */
  ghost predicate IsOrder(flat: Members, order: seq<string>) {
    && (forall k :: k in order <==> k in flat && '.' in k)
    && Distinct(order)
  }

  /** What nestDottedKeys makes of flat when it meets the dotted keys in this order. */
  function Nested(flat: Members, order: seq<string>): Members
    requires forall k | k in order :: k in flat
  {
    NestFrom(Plain(flat), flat, order)
  }

  // ---------------------------------------------------------------------------------------------
  // Gaining members
  // ---------------------------------------------------------------------------------------------

  /** a is b but for members that objects in it have gained. */
  predicate Extends(a: Json, b: Json)
    decreases b
  {
    if b.Object? then a.Object? && forall k | k in b.members :: k in a.members && Extends(a.members[k], b.members[k])
    else a == b
  }

  predicate AllExtend(a: Members, b: Members) {
    forall k | k in b :: k in a && Extends(a[k], b[k])
  }

  lemma {:induction false} ExtendsRefl(a: Json)
    ensures Extends(a, a)
    decreases a
  {
    if a.Object? {
      forall k | k in a.members { ExtendsRefl(a.members[k]); }
    }
  }

  lemma {:induction false} ExtendsTrans(a: Json, b: Json, c: Json)
    requires Extends(a, b) && Extends(b, c)
    ensures Extends(a, c)
    decreases c
  {
    if c.Object? {
      forall k | k in c.members
        ensures k in a.members && Extends(a.members[k], c.members[k])
      {
        ExtendsTrans(a.members[k], b.members[k], c.members[k]);
      }
    }
  }

  lemma AllRefl(a: Members)
    ensures AllExtend(a, a)
  {
    forall k | k in a { ExtendsRefl(a[k]); }
  }

  lemma AllTrans(a: Members, b: Members, c: Members)
    requires AllExtend(a, b) && AllExtend(b, c)
    ensures AllExtend(a, c)
  {
    forall k | k in c ensures k in a && Extends(a[k], c[k]) {
      ExtendsTrans(a[k], b[k], c[k]);
    }
  }

  /** What stands at a path of names. */
  function AtPath(root: Members, parts: seq<string>): Option<Json>
    requires parts != []
    decreases |parts|
  {
    if parts[0] !in root then None
    else if |parts| == 1 then Some(root[parts[0]])
    else if root[parts[0]].Object? then AtPath(root[parts[0]].members, parts[1..])
    else None
  }

  /** An insertion puts the value at its path and takes nothing away. */
  lemma {:induction false} InsertedAt(root: Members, parts: seq<string>, val: Json)
    requires parts != [] && InsertNested(root, parts, val).Some?
    ensures var new_ := InsertNested(root, parts, val).value;
            AllExtend(new_, root) && AtPath(new_, parts) == Some(val)
    decreases |parts|
  {
    AllRefl(root);
    if |parts| > 1 {
      var p := parts[0];
      var below := if p in root then root[p].members else map[];
      InsertedAt(below, parts[1..], val);
    }
  }

  /** A value that stands at a path stays there, but for members it gains. */
  lemma {:induction false} PathKept(a: Members, b: Members, parts: seq<string>)
    requires parts != [] && AllExtend(a, b) && AtPath(b, parts).Some?
    ensures AtPath(a, parts).Some? && Extends(AtPath(a, parts).value, AtPath(b, parts).value)
    decreases |parts|
  {
    assert Extends(a[parts[0]], b[parts[0]]);
    if |parts| > 1 {
      PathKept(a[parts[0]].members, b[parts[0]].members, parts[1..]);
    }
  }

  /** What blocks an insertion keeps blocking it. */
  lemma {:induction false} StaysBlocked(a: Members, b: Members, parts: seq<string>, val: Json, other: Json)
    requires parts != [] && AllExtend(a, b) && InsertNested(b, parts, val).None?
    ensures InsertNested(a, parts, other).None?
    decreases |parts|
  {
    var p := parts[0];
    if |parts| > 1 {
      if p in b {
        assert Extends(a[p], b[p]);
        if b[p].Object? {
          StaysBlocked(a[p].members, b[p].members, parts[1..], val, other);
        }
      } else {
        EmptyTakesAll(parts[1..], val);
      }
    }
  }

  lemma {:induction false} EmptyTakesAll(parts: seq<string>, val: Json)
    requires parts != []
    ensures InsertNested(map[], parts, val).Some?
    decreases |parts|
  {
    if |parts| > 1 {
      EmptyTakesAll(parts[1..], val);
    }
  }

  // ---------------------------------------------------------------------------------------------
  // Keys and their parts
  // ---------------------------------------------------------------------------------------------

  lemma FirstPart(k: string)
    ensures !Dotted(SplitDots(k)[0])
  {
    PartsHaveNoDots(k);
    assert SplitDots(k)[0] in SplitDots(k);
  }

  /** A literal dotted key is invisible to insertions: they start at a name without dots. */
  lemma LiteralApart(root: Members, k: string, val: Json, parts: seq<string>, other: Json)
    requires Dotted(k) && parts != [] && !Dotted(parts[0])
    ensures InsertNested(root[k := val], parts, other)
         == match InsertNested(root, parts, other) { case None => None case Some(m) => Some(m[k := val]) }
  {
    if |parts| > 1 {
      var p := parts[0];
      assert p != k;
      match InsertNested(root, parts, other)
      case None =>
      case Some(m) => assert root[k := val][p := m[p]] == m[k := val];
    } else if parts[0] !in root {
      assert root[k := val][parts[0] := other] == root[parts[0] := other][k := val];
    }
  }

  // ---------------------------------------------------------------------------------------------
  // Nothing is lost
  // ---------------------------------------------------------------------------------------------

  /** The literal keys of root are dotted keys that were met already. */
  predicate LiteralsMet(root: Members, met: set<string>) {
    forall k | k in root && Dotted(k) :: k in met
  }

  lemma InsertedLiterals(root: Members, parts: seq<string>, val: Json, k: string)
    requires parts != [] && !Dotted(parts[0]) && Dotted(k) && InsertNested(root, parts, val).Some?
    ensures k in InsertNested(root, parts, val).value <==> k in root
    ensures k in root ==> InsertNested(root, parts, val).value[k] == root[k]
  {
  }

  /** A step takes nothing away, and the fallback to the literal key overwrites nothing. */
  lemma StepKeeps(root: Members, k: string, val: Json, met: set<string>)
    requires Dotted(k) && k !in met && LiteralsMet(root, met)
    ensures InsertNested(root, SplitDots(k), val).None? ==> k !in root
    ensures AllExtend(Round(root, k, val), root) && LiteralsMet(Round(root, k, val), met + {k})
    ensures (k in Round(root, k, val) && Round(root, k, val)[k] == val) || AtPath(Round(root, k, val), SplitDots(k)) == Some(val)
    ensures forall l | Dotted(l) && l in root :: Round(root, k, val)[l] == root[l]
  {
    hide InsertNested, SplitDots, Extends, AtPath;
    var parts := SplitDots(k);
    FirstPart(k);
    AllRefl(root);
    if InsertNested(root, parts, val).Some? {
      InsertedAt(root, parts, val);
      forall l | Dotted(l) { InsertedLiterals(root, parts, val, l); }
    }
  }

  /** The value of k is where it belongs: at its nested path, but for members it gained, or untouched at its literal key. */
  predicate Kept(root: Members, k: string, val: Json) {
    || (k in root && root[k] == val)
    || (AtPath(root, SplitDots(k)).Some? && Extends(AtPath(root, SplitDots(k)).value, val))
  }

  lemma KeptOn(a: Members, b: Members, k: string, val: Json)
    requires AllExtend(a, b) && Kept(b, k, val) && Dotted(k) && forall l | Dotted(l) && l in b :: l in a && a[l] == b[l]
    ensures Kept(a, k, val)
  {
    hide SplitDots, Extends, AtPath;
    if !(k in b && b[k] == val) {
      PathKept(a, b, SplitDots(k));
      ExtendsTrans(AtPath(a, SplitDots(k)).value, AtPath(b, SplitDots(k)).value, val);
    }
  }

  lemma {:induction false} RunKeeps(root: Members, flat: Members, order: seq<string>, met: set<string>)
    requires forall k | k in order :: k in flat && Dotted(k) && k !in met
    requires Distinct(order)
    requires LiteralsMet(root, met)
    ensures AllExtend(NestFrom(root, flat, order), root)
    ensures forall k | k in order :: Kept(NestFrom(root, flat, order), k, flat[k])
    ensures forall l | Dotted(l) && l in root :: l in NestFrom(root, flat, order) && NestFrom(root, flat, order)[l] == root[l]
    decreases |order|
  {
    hide InsertNested, SplitDots, Extends, AtPath, Round, Kept;
    if order == [] {
      AllRefl(root);
    } else {
      var k, rest := order[0], order[1..];
      var next := Round(root, k, flat[k]);
      StepKeeps(root, k, flat[k], met);
      StepKept(root, k, flat[k]);
      RunKeeps(next, flat, rest, met + {k});
      var out := NestFrom(next, flat, rest);
      AllTrans(out, next, root);
      KeptOn(out, next, k, flat[k]);
      assert order == [k] + rest;
    }
  }

  lemma StepKept(root: Members, k: string, val: Json)
    requires (k in Round(root, k, val) && Round(root, k, val)[k] == val) || AtPath(Round(root, k, val), SplitDots(k)) == Some(val)
    ensures Kept(Round(root, k, val), k, val)
  {
    hide SplitDots, AtPath, Round;
    ExtendsRefl(val);
  }

  /** Whatever the order, every plain key keeps its value but for gained members, and every dotted key's value is kept. */
  lemma NothingLost(flat: Members, order: seq<string>)
    requires IsOrder(flat, order)
    ensures forall k | k in flat && '.' !in k :: k in Nested(flat, order) && Extends(Nested(flat, order)[k], flat[k])
    ensures forall k | k in flat && '.' in k :: Kept(Nested(flat, order), k, flat[k])
  {
    hide NestFrom, Kept, Extends;
    RunKeeps(Plain(flat), flat, order, {});
    assert forall k | k in flat && !Dotted(k) :: k in Plain(flat) && Plain(flat)[k] == flat[k];
  }

  // ---------------------------------------------------------------------------------------------
  // When a key is nested
  // ---------------------------------------------------------------------------------------------

  /** Nothing stands at the path, and nothing but objects on the way to it. */
  predicate Free(root: Members, parts: seq<string>)
    requires parts != []
  {
    && AtPath(root, parts).None?
    && forall n | 0 < n < |parts| :: AtPath(root, parts[..n]).Some? ==> AtPath(root, parts[..n]).value.Object?
  }

  lemma {:induction false} FreeBelow(root: Members, parts: seq<string>)
    requires |parts| > 1
    ensures Free(root, parts) <==>
              parts[0] in root ==> root[parts[0]].Object? && Free(root[parts[0]].members, parts[1..])
  {
    var p, rest := parts[0], parts[1..];
    assert parts[..1] == [p];
    forall n | 1 < n < |parts| ensures parts[..n][0] == p && parts[..n][1..] == rest[..n - 1] {
    }
    if p in root && root[p].Object? && Free(root, parts) {
      forall n | 0 < n < |rest| && AtPath(root[p].members, rest[..n]).Some?
        ensures AtPath(root[p].members, rest[..n]).value.Object?
      {
        assert parts[..n + 1][1..] == rest[..n];
      }
    }
  }

  lemma {:induction false} InsertsExactly(root: Members, parts: seq<string>, val: Json)
    requires parts != []
    ensures InsertNested(root, parts, val).Some? <==> Free(root, parts)
    decreases |parts|
  {
    hide Free;
    if |parts| == 1 {
      OneFree(root, parts);
    } else {
      FreeBelow(root, parts);
      var p := parts[0];
      if p !in root {
        NothingInEmpty(parts[1..]);
        InsertsExactly(map[], parts[1..], val);
      } else if root[p].Object? {
        InsertsExactly(root[p].members, parts[1..], val);
      }
    }
  }

  lemma OneFree(root: Members, parts: seq<string>)
    requires |parts| == 1
    ensures Free(root, parts) <==> parts[0] !in root
  {
  }

  lemma NothingInEmpty(parts: seq<string>)
    requires parts != []
    ensures Free(map[], parts)
  {
  }

  /** In its round a value goes to its path if that is free, and to its literal key, with nothing else touched, if it is not. */
  lemma RoundExactly(root: Members, k: string, val: Json)
    ensures Free(root, SplitDots(k)) ==> AtPath(Round(root, k, val), SplitDots(k)) == Some(val) && AllExtend(Round(root, k, val), root)
    ensures !Free(root, SplitDots(k)) ==> Round(root, k, val) == root[k := val]
  {
    hide InsertNested, SplitDots, AtPath, Free, AllExtend;
    InsertsExactly(root, SplitDots(k), val);
    if Free(root, SplitDots(k)) {
      InsertedAt(root, SplitDots(k), val);
    }
  }

  // ---------------------------------------------------------------------------------------------
  // When the order matters
  // ---------------------------------------------------------------------------------------------

  predicate Nests(root: Members, k: string) {
    InsertNested(root, SplitDots(k), Null).Some?
  }

  /** The value does not decide whether there is a collision. */
  lemma {:induction false} AnyValue(root: Members, parts: seq<string>, a: Json, b: Json)
    requires parts != []
    ensures InsertNested(root, parts, a).Some? <==> InsertNested(root, parts, b).Some?
    decreases |parts|
  {
    if |parts| > 1 {
      AnyValue(if parts[0] in root && root[parts[0]].Object? then root[parts[0]].members else map[], parts[1..], a, b);
    }
  }

  /** Two paths that part at once. */
  lemma {:induction false} InsertsApart(root: Members, p: seq<string>, a: Json, q: seq<string>, b: Json)
    requires p != [] && q != [] && p[0] != q[0]
    requires InsertNested(root, p, a).Some? && InsertNested(root, q, b).Some?
    ensures var x, y := InsertNested(root, p, a).value, InsertNested(root, q, b).value;
            InsertNested(x, q, b) == InsertNested(y, p, a) == Some(root[p[0] := x[p[0]]][q[0] := y[q[0]]])
  {
    var x, y := InsertNested(root, p, a).value, InsertNested(root, q, b).value;
    OnlyHead(root, p, a);
    OnlyHead(root, q, b);
    HeadDecides(root, y, p, a);
    HeadDecides(root, x, q, b);
    assert y[p[0] := x[p[0]]] == x[q[0] := y[q[0]]];
  }

  lemma {:induction false} OnlyHead(root: Members, p: seq<string>, a: Json)
    requires p != [] && InsertNested(root, p, a).Some?
    ensures p[0] in InsertNested(root, p, a).value
    ensures InsertNested(root, p, a).value == root[p[0] := InsertNested(root, p, a).value[p[0]]]
  {
  }

  /** An insertion depends on what stands at the first name only. */
  lemma {:induction false} HeadDecides(root: Members, other: Members, p: seq<string>, a: Json)
    requires p != [] && InsertNested(root, p, a).Some?
    requires (p[0] in root <==> p[0] in other) && (p[0] in root ==> root[p[0]] == other[p[0]])
    ensures InsertNested(other, p, a) == Some(other[p[0] := InsertNested(root, p, a).value[p[0]]])
  {
  }

  /** Two paths of which neither leads through the other. */
  lemma {:induction false} InsertsCommute(root: Members, p: seq<string>, a: Json, q: seq<string>, b: Json)
    requires p != [] && q != [] && !(p <= q) && !(q <= p)
    requires InsertNested(root, p, a).Some? && InsertNested(root, q, b).Some?
    ensures var x, y := InsertNested(root, p, a).value, InsertNested(root, q, b).value;
            InsertNested(x, q, b).Some? && InsertNested(x, q, b) == InsertNested(y, p, a)
    decreases |p|
  {
    if p[0] != q[0] {
      InsertsApart(root, p, a, q, b);
    } else {
      assert p == [p[0]] + p[1..] && q == [q[0]] + q[1..];
      assert |p| > 1 && |q| > 1;
      var below := if p[0] in root then root[p[0]].members else map[];
      InsertsCommute(below, p[1..], a, q[1..], b);
      InsertsSameHead(root, below, p, a, q, b);
    }
  }

  lemma {:induction false} InsertsSameHead(root: Members, below: Members, p: seq<string>, a: Json, q: seq<string>, b: Json)
    requires |p| > 1 && |q| > 1 && p[0] == q[0] && (p[0] in root ==> root[p[0]].Object?)
    requires below == if p[0] in root then root[p[0]].members else map[]
    requires InsertNested(below, p[1..], a).Some? && InsertNested(below, q[1..], b).Some?
    requires var x, y := InsertNested(below, p[1..], a).value, InsertNested(below, q[1..], b).value;
             InsertNested(x, q[1..], b).Some? && InsertNested(x, q[1..], b) == InsertNested(y, p[1..], a)
    ensures InsertNested(root, p, a).Some? && InsertNested(root, q, b).Some?
    ensures var x, y := InsertNested(root, p, a).value, InsertNested(root, q, b).value;
            InsertNested(x, q, b).Some? && InsertNested(x, q, b) == InsertNested(y, p, a)
  {
    hide InsertNested;
    var cx, cy := InsertNested(below, p[1..], a).value, InsertNested(below, q[1..], b).value;
    var cxy := InsertNested(cx, q[1..], b).value;
    var x, y := root[p[0] := Object(cx)], root[q[0] := Object(cy)];
    InsertsBelow(root, below, p, a, cx);
    InsertsBelow(root, below, q, b, cy);
    InsertsBelow(x, cx, q, b, cxy);
    InsertsBelow(y, cy, p, a, cxy);
    assert x[p[0] := Object(cxy)] == y[p[0] := Object(cxy)];
  }

  lemma {:induction false} InsertsBelow(root: Members, below: Members, p: seq<string>, a: Json, child: Members)
    requires |p| > 1 && InsertNested(below, p[1..], a) == Some(child)
    requires if p[0] in root then root[p[0]] == Object(below) else below == map[]
    ensures InsertNested(root, p, a) == Some(root[p[0] := Object(child)])
  {
  }

  /** A value at a path blocks the path itself and every path that leads to it. */
  lemma {:induction false} PathBlocks(root: Members, p: seq<string>, q: seq<string>, val: Json)
    requires p != [] && p <= q && AtPath(root, q).Some?
    ensures InsertNested(root, p, val).None?
    decreases |p|
  {
    assert p[0] == q[0];
    if |p| > 1 {
      assert p[1..] <= q[1..];
      PathBlocks(root[p[0]].members, p[1..], q[1..], val);
    }
  }

  /** No two of these keys both nest while one leads through the other. */
  predicate Independent(root: Members, k: string, l: string) {
    Nests(root, k) && Nests(root, l) && k != l ==> !(SplitDots(k) <= SplitDots(l))
  }

  lemma {:induction false} StepsCommute(root: Members, k: string, a: Json, l: string, b: Json)
    requires Dotted(k) && Dotted(l) && k != l && Independent(root, k, l) && Independent(root, l, k)
    ensures Round(Round(root, k, a), l, b) == Round(Round(root, l, b), k, a)
  {
    hide InsertNested, SplitDots, AllExtend, AtPath;
    var p, q := SplitDots(k), SplitDots(l);
    FirstPart(k);
    FirstPart(l);
    AnyValue(root, p, a, Null);
    AnyValue(root, q, b, Null);
    LiteralApart(root, k, a, q, b);
    LiteralApart(root, l, b, p, a);
    if Nests(root, k) && Nests(root, l) {
      InsertsCommute(root, p, a, q, b);
    } else if Nests(root, k) {
      InsertedAt(root, p, a);
      StaysBlocked(InsertNested(root, p, a).value, root, q, b, b);
    } else if Nests(root, l) {
      InsertedAt(root, q, b);
      StaysBlocked(InsertNested(root, q, b).value, root, p, a, a);
    } else {
      assert root[k := a][l := b] == root[l := b][k := a];
    }
  }

  /** What nests later nested before. */
  lemma StepBlocks(root: Members, k: string, val: Json, l: string)
    requires Dotted(k) && k !in root && Nests(Round(root, k, val), l)
    ensures Nests(root, l)
  {
    hide InsertNested, SplitDots, AtPath;
    FirstPart(l);
    var parts := SplitDots(k);
    if InsertNested(root, parts, val).Some? {
      InsertedAt(root, parts, val);
      if !Nests(root, l) {
        StaysBlocked(Round(root, k, val), root, SplitDots(l), Null, Null);
      }
    } else {
      LiteralApart(root, k, val, SplitDots(l), Null);
    }
  }

  /** All these keys are pairwise independent, and none of them stands in root. */
  predicate AllIndependent(root: Members, order: seq<string>) {
    && (forall k | k in order :: Dotted(k) && k !in root)
    && forall k, l | k in order && l in order :: Independent(root, k, l)
  }

  lemma StaysIndependent(root: Members, k: string, val: Json, order: seq<string>)
    requires Dotted(k) && k !in root && k !in order && AllIndependent(root, order)
    ensures AllIndependent(Round(root, k, val), order)
  {
    hide InsertNested, SplitDots, AtPath;
    FirstPart(k);
    forall l | l in order ensures l !in Round(root, k, val) {
      if InsertNested(root, SplitDots(k), val).Some? {
        InsertedLiterals(root, SplitDots(k), val, l);
      }
    }
    forall l, m | l in order && m in order ensures Independent(Round(root, k, val), l, m) {
      if Nests(Round(root, k, val), l) && Nests(Round(root, k, val), m) {
        StepBlocks(root, k, val, l);
        StepBlocks(root, k, val, m);
      }
    }
  }

  /** An independent key can be met first. */
  lemma {:induction false} MeetFirst(root: Members, flat: Members, before: seq<string>, k: string, after: seq<string>)
    requires forall l | l in before + [k] + after :: l in flat
    requires Distinct(before)
    requires k !in before && AllIndependent(root, before + [k])
    ensures NestFrom(root, flat, before + [k] + after) == NestFrom(root, flat, [k] + before + after)
    decreases |before|
  {
    hide Round, Independent;
    if before == [] {
      assert before + [k] + after == [k] + before + after;
    } else {
      var b, rest := before[0], before[1..];
      var next := Round(root, b, flat[b]);
      assert before == [b] + rest && b in before + [k] && k in before + [k];
      assert AllIndependent(root, rest + [k]) by {
        assert forall l | l in rest + [k] :: l in before + [k];
      }
      StaysIndependent(root, b, flat[b], rest + [k]);
      assert (before + [k] + after)[1..] == rest + [k] + after;
      MeetFirst(next, flat, rest, k, after);
      StepsCommute(root, b, flat[b], k, flat[k]);
      assert ([k] + rest + after)[1..] == rest + after;
      assert ([k] + before + after)[1..] == before + after;
      assert (before + after)[1..] == rest + after;
    }
  }

  /** A key can be taken before those that stand in front of it. */
  lemma BroughtForward(root: Members, flat: Members, b: seq<string>, i: nat)
    requires i < |b| && Distinct(b) && AllIndependent(root, b) && forall l | l in b :: l in flat
    ensures forall l | l in b[..i] + b[i + 1..] :: l in b
    ensures NestFrom(root, flat, b) == NestFrom(Round(root, b[i], flat[b[i]]), flat, b[..i] + b[i + 1..])
  {
    hide Round, AllIndependent;
    var before, k, after := b[..i], b[i], b[i + 1..];
    assert b == before + [k] + after;
    assert forall l | l in before + [k] :: l in b;
    SomeIndependent(root, b, before + [k]);
    MeetFirst(root, flat, before, k, after);
    assert ([k] + before + after)[1..] == before + after;
  }

  lemma {:induction false} AnyOrder(root: Members, flat: Members, a: seq<string>, b: seq<string>)
    requires (forall k :: k in a <==> k in b) && forall k | k in a :: k in flat
    requires Distinct(a) && Distinct(b)
    requires AllIndependent(root, a)
    ensures NestFrom(root, flat, a) == NestFrom(root, flat, b)
    decreases |a|
  {
    hide Round, AllIndependent, Distinct;
    assert |b| > 0 ==> b[0] in b && b[0] in a;
    if a != [] {
      var k, rest := a[0], a[1..];
      assert k in a && k in b;
      var i :| 0 <= i < |b| && b[i] == k;
      SomeIndependent(root, a, b);
      BroughtForward(root, flat, b, i);
      SameRest(a, b, i);
      SomeIndependent(root, a, rest);
      StaysIndependent(root, k, flat[k], rest);
      AnyOrder(Round(root, k, flat[k]), flat, rest, b[..i] + b[i + 1..]);
    }
  }

  lemma SomeIndependent(root: Members, keys: seq<string>, some: seq<string>)
    requires AllIndependent(root, keys) && forall l | l in some :: l in keys
    ensures AllIndependent(root, some)
  {
  }

  /** Dropping the same element from two lists without repetition that have the same elements. */
  lemma SameRest(a: seq<string>, b: seq<string>, i: nat)
    requires a != [] && i < |b| && b[i] == a[0] && forall k :: k in a <==> k in b
    requires Distinct(a) && Distinct(b)
    ensures forall k :: k in a[1..] <==> k in b[..i] + b[i + 1..]
    ensures Distinct(b[..i] + b[i + 1..]) && Distinct(a[1..])
    ensures a[0] !in a[1..]
  {
    var c := b[..i] + b[i + 1..];
    assert b == b[..i] + [a[0]] + b[i + 1..] && a == [a[0]] + a[1..];
    assert forall m | 0 <= m < |c| :: c[m] == b[if m < i then m else m + 1];
    forall k ensures k in a[1..] <==> k in c {
      assert k in a <==> k == a[0] || k in a[1..];
      assert k in b <==> k == a[0] || k in c;
    }
  }

  /** The result is the same for every order exactly when no two dotted keys that could nest lead through one another. */
  lemma OrderMattersExactly(flat: Members)
    ensures (forall a, b | IsOrder(flat, a) && IsOrder(flat, b) :: Nested(flat, a) == Nested(flat, b))
        <==> forall k, l | k in flat && l in flat && Dotted(k) && Dotted(l) :: Independent(Plain(flat), k, l)
  {
    hide NestFrom, Independent;
    if forall k, l | k in flat && l in flat && Dotted(k) && Dotted(l) :: Independent(Plain(flat), k, l) {
      forall a, b | IsOrder(flat, a) && IsOrder(flat, b) ensures Nested(flat, a) == Nested(flat, b) {
        AnyOrder(Plain(flat), flat, a, b);
      }
    } else {
      var k, l :| k in flat && l in flat && Dotted(k) && Dotted(l) && !Independent(Plain(flat), k, l);
      DependentDiffer(flat, k, l);
    }
  }

  /** k is met first and nests; met after l it stays literal. */
  lemma DependentDiffer(flat: Members, k: string, l: string)
    requires k in flat && l in flat && Dotted(k) && Dotted(l) && !Independent(Plain(flat), k, l)
    ensures exists a, b :: IsOrder(flat, a) && IsOrder(flat, b) && Nested(flat, a) != Nested(flat, b)
  {
    var dotted := Keys(Remaining(flat.Keys - {k, l}));
    var a, b := [k, l] + dotted, [l, k] + dotted;
    hide NestFrom, InsertNested, SplitDots, Round, Kept, Extends, AtPath;
    TwoFirst(flat, k, l, dotted);
    TwoFirst(flat, l, k, dotted);
    NestsThenAbsent(flat, k, a);
    LiteralThenPresent(flat, k, l, b);
  }

  lemma TwoFirst(flat: Members, k: string, l: string, dotted: seq<string>)
    requires k in flat && l in flat && Dotted(k) && Dotted(l) && k != l
    requires Distinct(dotted) && forall m :: m in dotted <==> m in Remaining(flat.Keys - {k, l})
    ensures IsOrder(flat, [k, l] + dotted)
  {
    var order := [k, l] + dotted;
    forall m ensures m in order <==> m in flat && Dotted(m) {
      assert m in order <==> m == k || m == l || m in dotted;
    }
    forall i, j | 0 <= i < j < |order| ensures order[i] != order[j] {
      assert j >= 2 ==> order[j] == dotted[j - 2] && order[j] in dotted;
    }
  }

  /** The dotted keys among these. */
  function Remaining(keys: set<string>): set<string> {
    set k | k in keys && Dotted(k)
  }

  ghost function Keys(keys: set<string>): (r: seq<string>)
    ensures forall k :: k in r <==> k in keys
    ensures Distinct(r)
    decreases |keys|
  {
    if keys == {} then []
    else
      var k :| k in keys;
      [k] + Keys(keys - {k})
  }

  lemma NestsThenAbsent(flat: Members, k: string, order: seq<string>)
    requires IsOrder(flat, order) && order != [] && order[0] == k && Nests(Plain(flat), k)
    ensures k !in Nested(flat, order)
  {
    hide InsertNested, SplitDots;
    var root := Plain(flat);
    FirstPart(k);
    AnyValue(root, SplitDots(k), flat[k], Null);
    InsertedLiterals(root, SplitDots(k), flat[k], k);
    assert forall m | m in order[1..] :: m in order;
    AbsentStays(Round(root, k, flat[k]), flat, order[1..], k);
  }

  lemma {:induction false} AbsentStays(root: Members, flat: Members, order: seq<string>, k: string)
    requires (forall l | l in order :: l in flat) && Dotted(k) && k !in root && k !in order
    ensures k !in NestFrom(root, flat, order)
    decreases |order|
  {
    hide InsertNested, SplitDots;
    if order != [] {
      var l := order[0];
      FirstPart(l);
      if InsertNested(root, SplitDots(l), flat[l]).Some? {
        InsertedLiterals(root, SplitDots(l), flat[l], k);
      }
      AbsentStays(Round(root, l, flat[l]), flat, order[1..], k);
    }
  }

  lemma LiteralThenPresent(flat: Members, k: string, l: string, order: seq<string>)
    requires IsOrder(flat, order) && |order| >= 2 && order[0] == l && order[1] == k
    requires Nests(Plain(flat), l) && SplitDots(k) <= SplitDots(l)
    ensures k in Nested(flat, order)
  {
    hide InsertNested, SplitDots, AtPath;
    var root := Plain(flat);
    AnyValue(root, SplitDots(l), flat[l], Null);
    InsertedAt(root, SplitDots(l), flat[l]);
    var next := Round(root, l, flat[l]);
    PathBlocks(next, SplitDots(k), SplitDots(l), flat[k]);
    var after := order[1..];
    assert after[0] == k && after[1..] == order[2..];
    assert (forall m | m in after :: m in order) && forall m | m in order[2..] :: m in order;
    assert NestFrom(root, flat, order) == NestFrom(next, flat, after);
    assert NestFrom(next, flat, after) == NestFrom(Round(next, k, flat[k]), flat, after[1..]);
    PresentStays(Round(next, k, flat[k]), flat, order[2..], k);
  }

  lemma {:induction false} PresentStays(root: Members, flat: Members, order: seq<string>, k: string)
    requires (forall l | l in order :: l in flat) && k in root
    ensures k in NestFrom(root, flat, order)
    decreases |order|
  {
    hide InsertNested, SplitDots, AtPath, Extends;
    if order != [] {
      var l := order[0];
      if InsertNested(root, SplitDots(l), flat[l]).Some? {
        InsertedAt(root, SplitDots(l), flat[l]);
      }
      PresentStays(Round(root, l, flat[l]), flat, order[1..], k);
    }
  }
}
