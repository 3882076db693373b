/** Texts joined by separators, and when the whole determines them. */
module Weaving {
  /** texts[0], separators[0], texts[1], and so on. */
  function Woven(texts: seq<string>, separators: seq<string>): string
    requires |texts| == |separators| + 1
  {
    if separators == [] then texts[0] else texts[0] + (separators[0] + Woven(texts[1..], separators[1..]))
  }

  predicate Stands(m: string, t: string, i: int) {
    0 <= i && i + |m| <= |t| && t[i..i + |m|] == m
  }

  predicate Inside(m: string, t: string) {
    exists i | 0 <= i <= |t| :: Stands(m, t, i)
  }

  /** None of the separators stands in the text. */
  ghost predicate Free(ms: set<string>, t: string) {
    forall m | m in ms :: !Inside(m, t)
  }

  /** A separator of this kind starts with a blank and the given character and has those two
      nowhere else, so that two of them never overlap; none begins another. */
  ghost predicate Kind(ms: set<string>, second: char) {
    && second != ' '
    && (forall m | m in ms :: |m| >= 2 && m[0] == ' ' && m[1] == second && m[|m| - 1] != ' ')
    && (forall m, k | m in ms && 0 < k < |m| - 1 && m[k] == ' ' :: m[k + 1] != second)
    && (forall m, n | m in ms && n in ms && m <= n :: m == n)
  }

  ghost predicate IsKind(ms: set<string>) {
    exists c :: Kind(ms, c)
  }

  type Kinds = seq<set<string>>

  ghost predicate AllKinds(kinds: Kinds) {
    forall k | 0 <= k < |kinds| :: IsKind(kinds[k])
  }

  /** The separators are of the kinds given, one each. */
  ghost predicate OfKinds(kinds: Kinds, ms: seq<string>) {
    |ms| == |kinds| && forall k | 0 <= k < |ms| :: ms[k] in kinds[k]
  }

  /** No text has a separator of the kind next to it inside. */
  ghost predicate Clear(kinds: Kinds, texts: seq<string>) {
    |texts| == |kinds| + 1 && forall k | 0 <= k < |kinds| :: Free(kinds[k], texts[k]) && Free(kinds[k], texts[k + 1])
  }

  lemma NoOverlap(ms: set<string>, m: string, n: string, x: string, i: nat, j: nat)
    requires IsKind(ms) && m in ms && n in ms && Stands(m, x, i) && Stands(n, x, j)
    ensures i < j ==> i + |m| <= j
    ensures i == j ==> m == n
  {
    var c :| Kind(ms, c);
    assert forall k | 0 <= k < |m| :: x[i + k] == m[k];
    assert x[j] == n[0] && x[j + 1] == n[1];
    if i < j < i + |m| {
      OverlapAt(ms, c, m, n, j - i);
    }
    if i == j {
      assert |m| <= |n| ==> m <= n;
      assert |n| <= |m| ==> n <= m;
    }
  }

  lemma OverlapAt(ms: set<string>, c: char, m: string, n: string, k: nat)
    requires Kind(ms, c) && m in ms && n in ms && 0 < k < |m|
    ensures m[k] != n[0] || (k + 1 < |m| && m[k + 1] != n[1])
  {}

  /** A separator that stands behind the first one stands in the rest. */
  lemma InRest(ms: set<string>, m: string, n: string, u: string, y: string, x: string, p: int)
    requires IsKind(ms) && m in ms && n in ms
    requires x == u + (n + y) && Stands(m, x, p) && p > |u|
    ensures p >= |u| + |n| && Stands(m, y, p - |u| - |n|)
  {
    assert Stands(n, x, |u|);
    NoOverlap(ms, n, m, x, |u|, p);
    assert y == x[|u| + |n|..];
  }

  /** A text that a weave starts with has no separator of its kinds. */
  lemma NotInHead(ms: set<string>, m: string, u: string, rest: string, p: int)
    requires m in ms && Free(ms, u) && Stands(m, u + rest, p)
    ensures p + |m| > |u|
  {
    if p + |m| <= |u| {
      assert u[p..p + |m|] == (u + rest)[p..p + |m|];
      assert Stands(m, u, p);
    }
  }

  /** Against a clear weave, no other weave of the text has its first separator further right. */
  lemma {:induction false} NoneLater(
    kinds: Kinds, e: string, ts: seq<string>, ms: seq<string>, us: seq<string>, ns: seq<string>)
    requires AllKinds(kinds) && OfKinds(kinds, ms) && OfKinds(kinds, ns) && kinds != []
    requires |ts| == |ms| + 1 && Clear(kinds, us) && |e| + |ts[0]| > |us[0]|
    ensures e + Woven(ts, ms) != Woven(us, ns)
  {
    hide IsKind, Free;
    var x, p, q := Woven(us, ns), |e| + |ts[0]|, |us[0]|;
    var y, z := Woven(us[1..], ns[1..]), Woven(ts[1..], ms[1..]);
    if e + Woven(ts, ms) == x {
      assert x == us[0] + (ns[0] + y) && x == e + (ts[0] + (ms[0] + z));
      hide Woven;
      StandsThere(e, ts[0], ms[0], z);
      InRest(kinds[0], ms[0], ns[0], us[0], y, x, p);
      var r := q + |ns[0]|;
      var e1 := y[..p - r + |ms[0]|];
      RestOf(us[0], ns[0], y, e, ts[0], ms[0], z, r);
      if |ns| == 1 {
        WovenOne(us[1..], ns[1..]);
        NotInSecond(kinds, us, ns, ms[0], p - r);
      } else {
        NotInSecond(kinds, us, ns, ms[0], p - r);
        ClearRest(kinds, us);
        NoneLater(kinds[1..], e1, ts[1..], ms[1..], us[1..], ns[1..]);
      }
    }
  }

  lemma RestOf(u: string, n: string, y: string, e: string, t: string, m: string, z: string, r: int)
    requires u + (n + y) == e + (t + (m + z)) && r == |u| + |n| <= |e| + |t|
    ensures y == y[..|e| + |t| - r + |m|] + z
  {
    var x := u + (n + y);
    assert y == x[r..] && x == (e + t + m) + z;
    Tails(e + t + m, z, x, y, r);
  }

  /** A clear weave has no separator of the first kind within its second text. */
  lemma NotInSecond(kinds: Kinds, us: seq<string>, ns: seq<string>, m: string, i: int)
    requires Clear(kinds, us) && OfKinds(kinds, ns) && kinds != [] && m in kinds[0]
    requires Stands(m, Woven(us[1..], ns[1..]), i)
    ensures i + |m| > |us[1]|
  {
    assert Free(kinds[0], us[1]);
    if |ns| == 1 {
      WovenOne(us[1..], ns[1..]);
    } else {
      hide Free, Stands;
      WovenMore(us[1..], ns[1..]);
      NotInHead(kinds[0], m, us[1], ns[1..][0] + Woven(us[1..][1..], ns[1..][1..]), i);
    }
  }

  lemma StandsThere(e: string, t: string, m: string, z: string)
    ensures Stands(m, e + (t + (m + z)), |e| + |t|)
  {
    assert (e + (t + (m + z)))[|e| + |t|..|e| + |t| + |m|] == m;
  }

  lemma Tails(a: string, z: string, x: string, y: string, r: nat)
    requires r <= |a| && a + z == x && y == x[r..]
    ensures y == y[..|a| - r] + z
  {
    assert z == x[|a|..];
  }

  lemma WovenOne(us: seq<string>, ns: seq<string>)
    requires |us| == 1 && ns == []
    ensures Woven(us, ns) == us[0]
  {}

  lemma WovenMore(us: seq<string>, ns: seq<string>)
    requires |us| == |ns| + 1 && ns != []
    ensures Woven(us, ns) == us[0] + (ns[0] + Woven(us[1..], ns[1..]))
  {}

  lemma ClearRest(kinds: Kinds, us: seq<string>)
    requires Clear(kinds, us) && kinds != []
    ensures Clear(kinds[1..], us[1..])
  {
    hide Free;
    forall k | 0 <= k < |kinds| - 1
      ensures Free(kinds[1..][k], us[1..][k]) && Free(kinds[1..][k], us[1..][k + 1])
    {
      assert Free(kinds[k + 1], us[k + 1]) && Free(kinds[k + 1], us[k + 2]);
    }
  }

  /** A clear weave is the only one of its text. */
  lemma {:induction false} OnlyWeave(
    kinds: Kinds, ts: seq<string>, ms: seq<string>, us: seq<string>, ns: seq<string>)
    requires AllKinds(kinds) && OfKinds(kinds, ms) && OfKinds(kinds, ns)
    requires |ts| == |ms| + 1 && Clear(kinds, us) && Woven(ts, ms) == Woven(us, ns)
    ensures ts == us && ms == ns
  {
    hide IsKind, Free;
    if kinds == [] {
      assert ts == [ts[0]] && us == [us[0]];
      return;
    }
    var x, p, q := Woven(us, ns), |ts[0]|, |us[0]|;
    var y, z := Woven(us[1..], ns[1..]), Woven(ts[1..], ms[1..]);
    assert x == us[0] + (ns[0] + y) && x == ts[0] + (ms[0] + z);
    if p > q {
      assert "" + Woven(ts, ms) == x;
      NoneLater(kinds, "", ts, ms, us, ns);
      assert false;
    }
    hide Woven;
    StandsThere("", ts[0], ms[0], z);
    StandsThere("", us[0], ns[0], y);
    assert "" + x == x && "" + (us[0] + (ns[0] + y)) == x && "" + (ts[0] + (ms[0] + z)) == x;
    NoOverlap(kinds[0], ms[0], ns[0], x, p, q);
    NotInHead(kinds[0], ms[0], us[0], ns[0] + y, p);
    assert p == q && ms[0] == ns[0];
    assert ts[0] == x[..p] == us[0] && z == x[p + |ms[0]|..] == y;
    ClearRest(kinds, us);
    OnlyWeave(kinds[1..], ts[1..], ms[1..], us[1..], ns[1..]);
    assert ts == [ts[0]] + ts[1..] && us == [us[0]] + us[1..] && ms == [ms[0]] + ms[1..] && ns == [ns[0]] + ns[1..];
  }

  /** Moving one separator between its two texts leaves the whole as it is. */
  lemma {:induction false} Rewoven(
    ts: seq<string>, ms: seq<string>, us: seq<string>, ns: seq<string>, k: nat)
    requires |ts| == |us| == |ms| + 1 == |ns| + 1 && k < |ms|
    requires forall i | 0 <= i < |ts| && i != k && i != k + 1 :: ts[i] == us[i]
    requires forall i | 0 <= i < |ms| && i != k :: ms[i] == ns[i]
    requires ts[k] + ms[k] + ts[k + 1] == us[k] + ns[k] + us[k + 1]
    ensures Woven(ts, ms) == Woven(us, ns)
  {
    if k > 0 {
      Rewoven(ts[1..], ms[1..], us[1..], ns[1..], k - 1);
    } else {
      var rest := if |ms| == 1 then "" else ms[1] + Woven(ts[2..], ms[2..]);
      Head(ts, ms, rest);
      assert |ms| > 1 ==> ts[2..] == us[2..] && ms[2..] == ns[2..] && ms[1] == ns[1];
      Head(us, ns, rest);
    }
  }

  lemma Head(ts: seq<string>, ms: seq<string>, rest: string)
    requires |ts| == |ms| + 1 && ms != []
    requires rest == if |ms| == 1 then "" else ms[1] + Woven(ts[2..], ms[2..])
    ensures Woven(ts, ms) == (ts[0] + ms[0] + ts[1]) + rest
  {
    assert |ms| > 1 ==> ts[1..][1..] == ts[2..] && ms[1..][1..] == ms[2..];
    var w := Woven(ts[1..], ms[1..]);
    assert w == ts[1] + rest;
    assert Woven(ts, ms) == ts[0] + (ms[0] + w);
    hide Woven;
    Regrouped(ts[0], ms[0], ts[1], rest);
  }

  lemma Regrouped(a: string, b: string, c: string, d: string)
    ensures a + (b + (c + d)) == (a + b + c) + d
  {}

  /** A weave that is not clear has another one. */
  lemma AnotherWeave(kinds: Kinds, ts: seq<string>, ms: seq<string>) returns (us: seq<string>, ns: seq<string>)
    requires AllKinds(kinds) && OfKinds(kinds, ms) && |ts| == |ms| + 1 && !Clear(kinds, ts)
    ensures |us| == |ts| && us != ts && OfKinds(kinds, ns) && Woven(us, ns) == Woven(ts, ms)
  {
    hide IsKind;
    var k :| 0 <= k < |kinds| && (!Free(kinds[k], ts[k]) || !Free(kinds[k], ts[k + 1]));
    var s, t := ts[k], ts[k + 1];
    Nonempty(kinds, ms, k);
    if !Free(kinds[k], s) {
      var m :| m in kinds[k] && Inside(m, s);
      var a, b := Around(m, s);
      us, ns := ts[k := a][k + 1 := b + ms[k] + t], ms[k := m];
      assert |us[k + 1]| > |t|;
    } else {
      assert !Free(kinds[k], t);
      var m :| m in kinds[k] && Inside(m, t);
      var a, b := Around(m, t);
      us, ns := ts[k := s + ms[k] + a][k + 1 := b], ms[k := m];
      assert |us[k]| > |s|;
    }
    Rewoven(ts, ms, us, ns, k);
  }

  lemma Around(m: string, t: string) returns (a: string, b: string)
    requires Inside(m, t)
    ensures t == a + m + b
  {
    var i :| 0 <= i <= |t| && Stands(m, t, i);
    a, b := t[..i], t[i + |m|..];
  }

  lemma Nonempty(kinds: Kinds, ms: seq<string>, k: nat)
    requires AllKinds(kinds) && OfKinds(kinds, ms) && k < |ms|
    ensures ms[k] != ""
  {
    assert IsKind(kinds[k]);
  }
}
