// The key under which CheckBatch shares verdicts: equivalenceKey in internal/authz/embedded.go.
module AuthzKey {
  import opened Text
  import opened AuthzIds
  import opened AuthzModel
  import opened SortedStrings

  /** strconv.Itoa for a length. */
  function Itoa(n: nat): (s: string)
    ensures s != "" && forall c | c in s :: '0' <= c <= '9'
  {
    if n < 10 then [Digit(n)] else Itoa(n / 10) + [Digit(n % 10)]
  }

  function Digit(d: nat): (c: char)
    requires d < 10
    ensures '0' <= c <= '9' && c as int == '0' as int + d
  {
    ('0' as int + d) as char
  }

  function FormatBool(b: bool): string {
    if b then "true" else "false"
  }

  function KitPartFields(ps: seq<KitPart>): seq<string> {
    if ps == [] then []
    else [ps[0].kit, Itoa(|ps[0].grants|), Itoa(|ps[0].tools|)] + ps[0].grants + ps[0].tools + KitPartFields(ps[1..])
  }

  /** Everything the key is made of. */
  function Fields(r: Request): seq<string> {
    var roles, kits := SortedUnique(r.roles), SortedUnique(r.kits);
    [r.userID, r.companyID, r.plan, r.backend, r.access, FormatBool(r.tool == ""), Itoa(|roles|)] + roles
    + [Itoa(|kits|)] + kits + KitPartFields(r.kitParts)
  }

  /** Each field behind its length in bytes and a colon. */
  function Framed(fields: seq<string>): string {
    if fields == [] then "" else Itoa(ByteLen(fields[0])) + ":" + fields[0] + Framed(fields[1..])
  }

  function EquivalenceKey(r: Request): string {
    Framed(Fields(r))
  }

  /** The loops that build the key. */
  method BuildKey(r: Request) returns (key: string)
    ensures key == EquivalenceKey(r)
  {
    hide Framed, Itoa;
    var roles, kits := SortedUnique(r.roles), SortedUnique(r.kits);
    var parts := [r.userID, r.companyID, r.plan, r.backend, r.access, FormatBool(r.tool == ""), Itoa(|roles|)] + roles;
    parts := parts + [Itoa(|kits|)];
    parts := parts + kits;
    ghost var head := parts;
    for i := 0 to |r.kitParts|
      invariant parts + KitPartFields(r.kitParts[i..]) == head + KitPartFields(r.kitParts)
    {
      var p := r.kitParts[i];
      assert r.kitParts[i..][1..] == r.kitParts[i + 1..];
      parts := parts + [p.kit, Itoa(|p.grants|), Itoa(|p.tools|)];
      parts := parts + p.grants;
      parts := parts + p.tools;
    }
    assert parts == Fields(r);
    key := Frame(parts);
  }

  method Frame(parts: seq<string>) returns (b: string)
    ensures b == Framed(parts)
  {
    hide Itoa;
    b := "";
    for i := 0 to |parts|
      invariant b == Framed(parts[..i])
    {
      FramedAppend(parts[..i], parts[i]);
      assert parts[..i + 1] == parts[..i] + [parts[i]];
      b := b + Itoa(ByteLen(parts[i])) + ":" + parts[i];
    }
    assert parts[..|parts|] == parts;
  }

  lemma {:induction false} FramedAppend(fields: seq<string>, f: string)
    ensures Framed(fields + [f]) == Framed(fields) + Itoa(ByteLen(f)) + ":" + f
  {
    hide Itoa;
    if fields == [] {
      assert [] + [f] == [f] && [f][1..] == [];
      assert Framed([f]) == Itoa(ByteLen(f)) + ":" + f + "";
    } else {
      assert (fields + [f])[1..] == fields[1..] + [f];
      FramedAppend(fields[1..], f);
      var h := Itoa(ByteLen(fields[0])) + ":" + fields[0];
      assert Framed(fields + [f]) == h + Framed(fields[1..] + [f]);
      assert h + (Framed(fields[1..]) + Itoa(ByteLen(f)) + ":" + f) == (h + Framed(fields[1..])) + Itoa(ByteLen(f)) + ":" + f;
    }
  }

  // ---------------------------------------------------------------------------------------------
  // The key can be taken apart again
  // ---------------------------------------------------------------------------------------------

  lemma {:induction false} ItoaInjective(m: nat, n: nat)
    requires Itoa(m) == Itoa(n)
    ensures m == n
    decreases m
  {
    var s, t := Itoa(m), Itoa(n);
    assert s[|s| - 1] == Digit(m % 10) && t[|t| - 1] == Digit(n % 10);
    if m >= 10 && n >= 10 {
      assert s[..|s| - 1] == Itoa(m / 10) && t[..|t| - 1] == Itoa(n / 10);
      ItoaInjective(m / 10, n / 10);
    }
  }

  /** A field can be cut off a text when its length in bytes is known. */
  lemma {:induction false} FieldSplits(p: string, x: string, q: string, y: string)
    requires p + x == q + y && ByteLen(p) == ByteLen(q)
    ensures p == q && x == y
  {
    LongerFieldSplits(p, x, q, y);
    LongerFieldSplits(q, y, p, x);
    assert x == (p + x)[|p|..] && y == (q + y)[|q|..];
    assert p == (p + x)[..|p|] && q == (q + y)[..|q|];
  }

  lemma {:induction false} LongerFieldSplits(p: string, x: string, q: string, y: string)
    requires p + x == q + y && ByteLen(p) == ByteLen(q)
    ensures |q| <= |p|
  {
    hide ByteLen;
    if |p| < |q| {
      var rest := q[|p|..];
      SharedPrefix(p, x, q, y);
      ByteLenAppend(p, rest);
    }
  }

  lemma {:induction false} SharedPrefix(p: string, x: string, q: string, y: string)
    requires p + x == q + y && |p| <= |q|
    ensures q == p + q[|p|..]
  {
    assert p == (p + x)[..|p|];
    assert q[..|p|] == (q + y)[..|p|];
  }

  lemma {:induction false} FramedInjective(ps: seq<string>, qs: seq<string>)
    requires Framed(ps) == Framed(qs)
    ensures ps == qs
    decreases |ps|
  {
    hide Itoa;
    if ps != [] && qs != [] {
      var m, n := Itoa(ByteLen(ps[0])), Itoa(ByteLen(qs[0]));
      var x, y := Framed(ps[1..]), Framed(qs[1..]);
      assert Framed(ps) == m + ":" + (ps[0] + x);
      assert Framed(qs) == n + ":" + (qs[0] + y);
      ColonSplits(m, ps[0] + x, n, qs[0] + y);
      ItoaInjective(ByteLen(ps[0]), ByteLen(qs[0]));
      FieldSplits(ps[0], x, qs[0], y);
      FramedInjective(ps[1..], qs[1..]);
      assert ps == [ps[0]] + ps[1..] && qs == [qs[0]] + qs[1..];
    }
  }

  lemma {:induction false} KitPartFieldsInjective(ps: seq<KitPart>, qs: seq<KitPart>)
    requires KitPartFields(ps) == KitPartFields(qs)
    ensures ps == qs
    decreases |ps|
  {
    hide Itoa;
    if ps != [] && qs != [] {
      var p, q := ps[0], qs[0];
      var hp, hq := [p.kit, Itoa(|p.grants|), Itoa(|p.tools|)], [q.kit, Itoa(|q.grants|), Itoa(|q.tools|)];
      var xs, ys := KitPartFields(ps[1..]), KitPartFields(qs[1..]);
      assert KitPartFields(ps) == hp + (p.grants + (p.tools + xs));
      assert KitPartFields(qs) == hq + (q.grants + (q.tools + ys));
      PrefixSplits(hp, p.grants + (p.tools + xs), hq, q.grants + (q.tools + ys));
      assert hp[0] == hq[0] && hp[1] == hq[1] && hp[2] == hq[2];
      ItoaInjective(|p.grants|, |q.grants|);
      ItoaInjective(|p.tools|, |q.tools|);
      PrefixSplits(p.grants, p.tools + xs, q.grants, q.tools + ys);
      PrefixSplits(p.tools, xs, q.tools, ys);
      KitPartFieldsInjective(ps[1..], qs[1..]);
      assert ps == [ps[0]] + ps[1..] && qs == [qs[0]] + qs[1..];
    }
  }

  predicate SameMembers(xs: seq<string>, ys: seq<string>) {
    (forall x | x in xs :: x in ys) && (forall y | y in ys :: y in xs)
  }

  /** The requests agree on everything but the tool's name and the order and repetition of roles and kits. */
  predicate Equivalent(a: Request, b: Request) {
    && a.userID == b.userID && a.companyID == b.companyID && a.plan == b.plan
    && a.backend == b.backend && a.access == b.access
    && (a.tool == "" <==> b.tool == "")
    && SameMembers(a.roles, b.roles) && SameMembers(a.kits, b.kits)
    && a.kitParts == b.kitParts
  }

  lemma SortedUniqueSame(xs: seq<string>, ys: seq<string>)
    ensures SortedUnique(xs) == SortedUnique(ys) <==> SameMembers(xs, ys)
  {
    if SameMembers(xs, ys) {
      Canonical(SortedUnique(xs), SortedUnique(ys));
    }
    if SortedUnique(xs) == SortedUnique(ys) {
      assert forall x :: x in xs <==> x in SortedUnique(xs);
      assert forall y :: y in ys <==> y in SortedUnique(ys);
    }
  }

  lemma FieldsDetermine(a: Request, b: Request)
    requires Fields(a) == Fields(b)
    ensures a.userID == b.userID && a.companyID == b.companyID && a.plan == b.plan
    ensures a.backend == b.backend && a.access == b.access && (a.tool == "" <==> b.tool == "")
    ensures SortedUnique(a.roles) == SortedUnique(b.roles) && SortedUnique(a.kits) == SortedUnique(b.kits)
    ensures a.kitParts == b.kitParts
  {
    hide Itoa, SortedUnique, KitPartFields;
    var ra, rb, ka, kb := SortedUnique(a.roles), SortedUnique(b.roles), SortedUnique(a.kits), SortedUnique(b.kits);
    var ha := [a.userID, a.companyID, a.plan, a.backend, a.access, FormatBool(a.tool == ""), Itoa(|ra|)];
    var hb := [b.userID, b.companyID, b.plan, b.backend, b.access, FormatBool(b.tool == ""), Itoa(|rb|)];
    var xa, xb := KitPartFields(a.kitParts), KitPartFields(b.kitParts);
    assert Fields(a) == ha + (ra + ([Itoa(|ka|)] + (ka + xa)));
    assert Fields(b) == hb + (rb + ([Itoa(|kb|)] + (kb + xb)));
    PrefixSplits(ha, ra + ([Itoa(|ka|)] + (ka + xa)), hb, rb + ([Itoa(|kb|)] + (kb + xb)));
    assert forall i | 0 <= i < 7 :: ha[i] == hb[i];
    assert ha[0] == hb[0] && ha[1] == hb[1] && ha[2] == hb[2] && ha[3] == hb[3] && ha[4] == hb[4] && ha[5] == hb[5] && ha[6] == hb[6];
    assert "true" != "false" by { assert "true"[0] == 't' && "false"[0] == 'f'; }
    ItoaInjective(|ra|, |rb|);
    PrefixSplits(ra, [Itoa(|ka|)] + (ka + xa), rb, [Itoa(|kb|)] + (kb + xb));
    PrefixSplits([Itoa(|ka|)], ka + xa, [Itoa(|kb|)], kb + xb);
    assert [Itoa(|ka|)][0] == [Itoa(|kb|)][0];
    ItoaInjective(|ka|, |kb|);
    PrefixSplits(ka, xa, kb, xb);
    KitPartFieldsInjective(a.kitParts, b.kitParts);
  }

  /** Two requests share a key exactly when they are equivalent. */
  lemma KeyIsExact(a: Request, b: Request)
    ensures EquivalenceKey(a) == EquivalenceKey(b) <==> Equivalent(a, b)
  {
    hide Framed, SortedUnique, KitPartFields, Itoa, SameMembers;
    SortedUniqueSame(a.roles, b.roles);
    SortedUniqueSame(a.kits, b.kits);
    if EquivalenceKey(a) == EquivalenceKey(b) {
      FramedInjective(Fields(a), Fields(b));
      FieldsDetermine(a, b);
    }
  }

  lemma KeyNotEmpty(r: Request)
    ensures EquivalenceKey(r) != ""
  {
    hide Itoa, SortedUnique, KitPartFields;
    assert Fields(r) != [] && Itoa(ByteLen(Fields(r)[0])) != "";
  }
}
