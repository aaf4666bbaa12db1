// The distance behind "did you mean": editDistance in internal/dadl/paramcheck.go.
module EditDistance {

  function Min(a: int, b: int): int {
    if b < a then b else a
  }

  function Cost(c: char, d: char): nat {
    if c == d then 0 else 1
  }

  /** All but the last character. */
  function Front(s: string): string
    requires s != ""
  {
    s[..|s| - 1]
  }

  function Last(s: string): char
    requires s != ""
  {
    s[|s| - 1]
  }

  /** The Levenshtein distance by recursion on the last characters. */
  function Distance(a: string, b: string): nat
    decreases |a| + |b|
  {
    if a == "" then |b|
    else if b == "" then |a|
    else Min(Distance(Front(a), b) + 1,
             Min(Distance(a, Front(b)) + 1, Distance(Front(a), Front(b)) + Cost(Last(a), Last(b))))
  }

  // ---------------------------------------------------------------------------------------------
  // The method
  // ---------------------------------------------------------------------------------------------

  method EditDistance(a: string, b: string) returns (d: int)
    ensures d == Distance(a, b)
  {
    if a == b {
      ZeroIffEqual(a, b);
      return 0;
    }
    if |a| == 0 {
      return |b|;
    }
    if |b| == 0 {
      return |a|;
    }
    var prev := new int[|b| + 1];
    var curr := new int[|b| + 1];
    for j := 0 to prev.Length
      invariant forall k | 0 <= k < j :: prev[k] == k
    {
      prev[j] := j;
    }
    assert a[..0] == "" && forall k | 0 <= k <= |b| :: |b[..k]| == k;
    for i := 1 to |a| + 1
      invariant prev != curr && prev.Length == curr.Length == |b| + 1 && fresh(prev) && fresh(curr)
      invariant forall k | 0 <= k <= |b| :: prev[k] == Distance(a[..i - 1], b[..k])
    {
      FillRow(a, b, i, prev, curr);
      prev, curr := curr, prev;
    }
    assert a[..|a|] == a && b[..|b|] == b;
    return prev[|b|];
  }

  /** The inner loop: the row of the first i characters of a from the row of the first i - 1. */
  method FillRow(a: string, b: string, i: nat, prev: array<int>, curr: array<int>)
    requires 1 <= i <= |a| && prev != curr && prev.Length == curr.Length == |b| + 1
    requires forall k | 0 <= k <= |b| :: prev[k] == Distance(a[..i - 1], b[..k])
    modifies curr
    ensures forall k | 0 <= k <= |b| :: curr[k] == Distance(a[..i], b[..k])
  {
    hide Distance;
    FirstInRow(a[..i], b);
    curr[0] := i;
    for j := 1 to |b| + 1
      invariant forall k | 0 <= k < j :: curr[k] == Distance(a[..i], b[..k])
    {
      var cost := 1;
      if a[i - 1] == b[j - 1] {
        cost := 0;
      }
      curr[j] := Min(prev[j] + 1, Min(curr[j - 1] + 1, prev[j - 1] + cost));
      NextInRow(a, b, i, j);
    }
  }

  lemma {:induction false} FirstInRow(a: string, b: string)
    ensures Distance(a, b[..0]) == |a|
  {
    assert b[..0] == "";
  }

  lemma {:induction false} NextInRow(a: string, b: string, i: nat, j: nat)
    requires 1 <= i <= |a| && 1 <= j <= |b|
    ensures Distance(a[..i], b[..j])
         == Min(Distance(a[..i - 1], b[..j]) + 1,
                Min(Distance(a[..i], b[..j - 1]) + 1, Distance(a[..i - 1], b[..j - 1]) + Cost(a[i - 1], b[j - 1])))
  {
    hide Distance;
    assert Front(a[..i]) == a[..i - 1] && Front(b[..j]) == b[..j - 1];
    DistanceStep(a[..i], b[..j]);
  }

  lemma {:induction false} DistanceStep(p: string, q: string)
    requires p != "" && q != ""
    ensures Distance(p, q)
         == Min(Distance(Front(p), q) + 1, Min(Distance(p, Front(q)) + 1, Distance(Front(p), Front(q)) + Cost(Last(p), Last(q))))
  {
  }

  // ---------------------------------------------------------------------------------------------
  // It is a metric
  // ---------------------------------------------------------------------------------------------

  lemma {:induction false} Symmetric(a: string, b: string)
    ensures Distance(a, b) == Distance(b, a)
    decreases |a| + |b|
  {
    if a != "" && b != "" {
      Symmetric(Front(a), b);
      Symmetric(a, Front(b));
      Symmetric(Front(a), Front(b));
    }
  }

  /** At least the difference of the lengths, at most their sum. */
  lemma {:induction false} LengthBounds(a: string, b: string)
    ensures |a| - |b| <= Distance(a, b) && |b| - |a| <= Distance(a, b) <= |a| + |b|
    decreases |a| + |b|
  {
    if a != "" && b != "" {
      LengthBounds(Front(a), b);
      LengthBounds(a, Front(b));
      LengthBounds(Front(a), Front(b));
    }
  }

  lemma {:induction false} ZeroIffEqual(a: string, b: string)
    ensures Distance(a, b) == 0 <==> a == b
    decreases |a| + |b|
  {
    if a != "" && b != "" {
      ZeroIffEqual(Front(a), Front(b));
      assert a == Front(a) + [Last(a)] && b == Front(b) + [Last(b)];
    }
  }

  lemma {:induction false} Triangle(a: string, b: string, c: string)
    ensures Distance(a, c) <= Distance(a, b) + Distance(b, c)
    decreases |a| + |b| + |c|
  {
    if a == "" {
      LengthBounds(b, c);
    } else if b == "" {
      LengthBounds(a, c);
    } else if c == "" {
      LengthBounds(a, b);
    } else {
      Triangle(Front(a), b, c);
      Triangle(a, b, Front(c));
      Triangle(a, Front(b), c);
      Triangle(a, Front(b), Front(c));
      Triangle(Front(a), Front(b), c);
      Triangle(Front(a), Front(b), Front(c));
    }
  }

  // ---------------------------------------------------------------------------------------------
  // It is the length of a shortest edit script
  // ---------------------------------------------------------------------------------------------

  datatype Edit = Insert(at: nat, c: char) | Delete(at: nat) | Replace(at: nat, c: char)

  predicate Applies(s: string, e: Edit) {
    if e.Insert? then e.at <= |s| else e.at < |s|
  }

  function Apply(s: string, e: Edit): string
    requires Applies(s, e)
  {
    match e
    case Insert(at, c) => s[..at] + [c] + s[at..]
    case Delete(at) => s[..at] + s[at + 1..]
    case Replace(at, c) => s[..at] + [c] + s[at + 1..]
  }

  /** script turns a into b. */
  predicate Turns(a: string, script: seq<Edit>, b: string)
    decreases |script|
  {
    if script == [] then a == b else Applies(a, script[0]) && Turns(Apply(a, script[0]), script[1..], b)
  }

  lemma {:induction false} CommonTail(p: string, q: string, tail: string)
    ensures Distance(p + tail, q + tail) <= Distance(p, q)
    decreases |tail|
  {
    if tail == "" {
      assert p + tail == p && q + tail == q;
    } else {
      assert Front(p + tail) == p + Front(tail) && Front(q + tail) == q + Front(tail);
      CommonTail(p, q, Front(tail));
    }
  }

  lemma Step(p: string, c: char, d: char)
    ensures Distance(p, p + [d]) <= 1 && Distance(p + [c], p) <= 1 && Distance(p + [c], p + [d]) <= 1
  {
    ZeroIffEqual(p, p);
    assert Front(p + [c]) == p && Front(p + [d]) == p;
  }

  lemma OneEdit(s: string, e: Edit)
    requires Applies(s, e)
    ensures Distance(s, Apply(s, e)) <= 1
  {
    hide Distance;
    var p := s[..e.at];
    if e.Insert? {
      Step(p, e.c, e.c);
      CommonTail(p, p + [e.c], s[e.at..]);
      assert s == p + s[e.at..];
    } else {
      var c, tail := s[e.at], s[e.at + 1..];
      Step(p, c, if e.Replace? then e.c else c);
      CommonTail(p + [c], if e.Replace? then p + [e.c] else p, tail);
      assert s == p + [c] + tail;
    }
  }

  /** No script is shorter than the distance. */
  lemma {:induction false} NoShorterScript(a: string, script: seq<Edit>, b: string)
    requires Turns(a, script, b)
    ensures Distance(a, b) <= |script|
    decreases |script|
  {
    if script == [] {
      ZeroIffEqual(a, b);
    } else {
      var next := Apply(a, script[0]);
      OneEdit(a, script[0]);
      NoShorterScript(next, script[1..], b);
      Triangle(a, next, b);
    }
  }

  lemma ApplyWithTail(s: string, e: Edit, tail: string)
    requires Applies(s, e)
    ensures Applies(s + tail, e) && Apply(s + tail, e) == Apply(s, e) + tail
  {
    assert (s + tail)[..e.at] == s[..e.at];
    assert (s + tail)[e.at..] == s[e.at..] + tail;
    assert !e.Insert? ==> (s + tail)[e.at + 1..] == s[e.at + 1..] + tail;
  }

  lemma {:induction false} TurnsWithTail(a: string, script: seq<Edit>, b: string, tail: string)
    requires Turns(a, script, b)
    ensures Turns(a + tail, script, b + tail)
    decreases |script|
  {
    hide Apply, Applies;
    if script != [] {
      ApplyWithTail(a, script[0], tail);
      TurnsWithTail(Apply(a, script[0]), script[1..], b, tail);
    }
  }

  lemma {:induction false} TurnsThen(a: string, script: seq<Edit>, b: string, e: Edit)
    requires Turns(a, script, b) && Applies(b, e)
    ensures Turns(a, script + [e], Apply(b, e))
    decreases |script|
  {
    if script == [] {
      assert script + [e] == [e];
    } else {
      assert (script + [e])[1..] == script[1..] + [e];
      TurnsThen(Apply(a, script[0]), script[1..], b, e);
    }
  }

  lemma InsertLast(a: string, script: seq<Edit>, b: string)
    requires b != "" && Turns(a, script, Front(b))
    ensures Turns(a, script + [Insert(|b| - 1, Last(b))], b)
  {
    hide Turns;
    var e := Insert(|b| - 1, Last(b));
    TurnsThen(a, script, Front(b), e);
    assert Apply(Front(b), e) == b;
  }

  lemma DeleteLast(a: string, script: seq<Edit>, b: string)
    requires a != "" && Turns(Front(a), script, b)
    ensures Turns(a, script + [Delete(|b|)], b)
  {
    hide Turns;
    var e := Delete(|b|);
    TurnsWithTail(Front(a), script, b, [Last(a)]);
    assert Front(a) + [Last(a)] == a;
    TurnsThen(a, script, b + [Last(a)], e);
    assert Apply(b + [Last(a)], e) == b;
  }

  lemma KeepLast(a: string, script: seq<Edit>, b: string)
    requires a != "" && b != "" && Last(a) == Last(b) && Turns(Front(a), script, Front(b))
    ensures Turns(a, script, b)
  {
    hide Turns;
    TurnsWithTail(Front(a), script, Front(b), [Last(a)]);
    assert Front(a) + [Last(a)] == a && Front(b) + [Last(a)] == b;
  }

  lemma ReplaceLast(a: string, script: seq<Edit>, b: string)
    requires a != "" && b != "" && Turns(Front(a), script, Front(b))
    ensures Turns(a, script + [Replace(|b| - 1, Last(b))], b)
  {
    hide Turns;
    var e := Replace(|b| - 1, Last(b));
    TurnsWithTail(Front(a), script, Front(b), [Last(a)]);
    assert Front(a) + [Last(a)] == a;
    TurnsThen(a, script, Front(b) + [Last(a)], e);
    assert Apply(Front(b) + [Last(a)], e) == b;
  }

  /** And some script has exactly that length. */
  lemma {:induction false} ShortestScript(a: string, b: string) returns (script: seq<Edit>)
    ensures Turns(a, script, b) && |script| == Distance(a, b)
    decreases |a| + |b|
  {
    if a == "" && b == "" {
      script := [];
    } else if a == "" || (b != "" && Distance(a, b) == Distance(a, Front(b)) + 1) {
      script := ShortestScript(a, Front(b));
      InsertLast(a, script, b);
      script := script + [Insert(|b| - 1, Last(b))];
    } else if b == "" || Distance(a, b) == Distance(Front(a), b) + 1 {
      script := ShortestScript(Front(a), b);
      DeleteLast(a, script, b);
      script := script + [Delete(|b|)];
    } else {
      script := ShortestScript(Front(a), Front(b));
      if Last(a) == Last(b) {
        KeepLast(a, script, b);
      } else {
        ReplaceLast(a, script, b);
        script := script + [Replace(|b| - 1, Last(b))];
      }
    }
  }
}
