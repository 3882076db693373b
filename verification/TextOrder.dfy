/** Lexicographic order on strings, as Go's < and SQLite's BINARY collation compare them. */
module TextOrder {
  predicate Less(s: string, t: string) {
    t != [] && (s == [] || s[0] < t[0] || (s[0] == t[0] && Less(s[1..], t[1..])))
  }

  predicate AtMost(s: string, t: string) {
    s == t || Less(s, t)
  }

  lemma {:induction false} Irreflexive(s: string)
    ensures !Less(s, s)
  {
    if s != [] {
      Irreflexive(s[1..]);
    }
  }

  lemma {:induction false} Transitive(s: string, t: string, u: string)
    requires Less(s, t) && Less(t, u)
    ensures Less(s, u)
  {
    if s != [] && s[0] == t[0] == u[0] {
      Transitive(s[1..], t[1..], u[1..]);
    }
  }

  lemma {:induction false} Total(s: string, t: string)
    ensures Less(s, t) || s == t || Less(t, s)
  {
    if s != [] && t != [] && s[0] == t[0] {
      Total(s[1..], t[1..]);
      assert s == [s[0]] + s[1..] && t == [t[0]] + t[1..];
    }
  }

  lemma Asymmetric(s: string, t: string)
    requires Less(s, t)
    ensures !Less(t, s)
  {
    if Less(t, s) {
      Transitive(s, t, s);
      Irreflexive(s);
    }
  }

  /** A common prefix does not matter. */
  lemma {:induction false} SharedPrefix(p: string, s: string, t: string)
    ensures Less(p + s, p + t) <==> Less(s, t)
  {
    if p == [] {
      assert p + s == s && p + t == t;
    } else {
      SharedPrefix(p[1..], s, t);
      assert (p + s)[1..] == p[1..] + s && (p + t)[1..] == p[1..] + t;
    }
  }

  /** A difference in an equally long prefix decides. */
  lemma {:induction false} PrefixDecides(p: string, q: string, s: string, t: string)
    requires |p| == |q| && p != q
    ensures Less(p + s, q + t) <==> Less(p, q)
  {
    assert p == [p[0]] + p[1..] && q == [q[0]] + q[1..];
    assert (p + s)[1..] == p[1..] + s && (q + t)[1..] == q[1..] + t;
    if p[0] == q[0] {
      PrefixDecides(p[1..], q[1..], s, t);
    }
  }

  /** The first difference decides, and a proper prefix comes first. */
  ghost predicate FirstDifference(s: string, t: string, i: nat) {
    i <= |s| && i < |t| && s[..i] == t[..i] && (i == |s| || s[i] < t[i])
  }

  lemma {:induction false} LessMeans(s: string, t: string)
    ensures Less(s, t) <==> exists i: nat :: FirstDifference(s, t, i)
  {
    if Less(s, t) {
      if s == "" || s[0] < t[0] {
        assert FirstDifference(s, t, 0);
      } else {
        LessMeans(s[1..], t[1..]);
        var i: nat :| FirstDifference(s[1..], t[1..], i);
        assert s[..i + 1] == [s[0]] + s[1..][..i] && t[..i + 1] == [t[0]] + t[1..][..i];
        assert FirstDifference(s, t, i + 1);
      }
    }
    if i: nat :| FirstDifference(s, t, i) {
      if i > 0 {
        assert s[0] == s[..i][0] == t[..i][0] == t[0];
        assert s[1..][..i - 1] == s[..i][1..] && t[1..][..i - 1] == t[..i][1..];
        assert FirstDifference(s[1..], t[1..], i - 1);
        LessMeans(s[1..], t[1..]);
      }
    }
  }
}
