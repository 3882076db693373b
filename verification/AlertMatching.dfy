/** Alert rules: the stored comma list of change types, and the two ways the stores match a
    change type against it. */
module AlertMatching {
  import opened Options

  // ---------------------------------------------------------------- text functions

  /** unicode.IsSpace. */
  predicate IsSpace(c: char) {
    || '\t' <= c <= '\r' || c == ' ' || c == '\U{0085}' || c == '\U{00A0}' || c == '\U{1680}'
    || '\U{2000}' <= c <= '\U{200A}' || c == '\U{2028}' || c == '\U{2029}' || c == '\U{202F}'
    || c == '\U{205F}' || c == '\U{3000}'
  }

  /** The twenty-five code points of the White_Space property. */
  lemma BlanksAre(c: char)
    ensures IsSpace(c) <==> c in {
      '\t', '\n', '\U{000B}', '\U{000C}', '\r', ' ', '\U{0085}', '\U{00A0}', '\U{1680}', '\U{2000}', '\U{2001}',
      '\U{2002}', '\U{2003}', '\U{2004}', '\U{2005}', '\U{2006}', '\U{2007}', '\U{2008}', '\U{2009}', '\U{200A}',
      '\U{2028}', '\U{2029}', '\U{202F}', '\U{205F}', '\U{3000}'}
  {}

  function TrimLeft(s: string): string {
    if s != "" && IsSpace(s[0]) then TrimLeft(s[1..]) else s
  }

  function TrimRight(s: string): string {
    if s != "" && IsSpace(s[|s| - 1]) then TrimRight(s[..|s| - 1]) else s
  }

  function Trim(s: string): string { TrimRight(TrimLeft(s)) }

  /** strings.Split(s, ","). */
  function Split(s: string): (r: seq<string>)
    ensures |r| >= 1
  {
    if s == "" then [""]
    else
      var rest := Split(s[1..]);
      if s[0] == ',' then [""] + rest else [[s[0]] + rest[0]] + rest[1..]
  }

  function Join(ts: seq<string>): string {
    if ts == [] then "" else if |ts| == 1 then ts[0] else ts[0] + "," + Join(ts[1..])
  }

  predicate CommaFree(s: string) { ',' !in s }

  /** A token as the normalizer leaves it. */
  predicate CleanToken(t: string) {
    t != "" && CommaFree(t) && !IsSpace(t[0]) && !IsSpace(t[|t| - 1])
  }

  lemma {:induction false} SplitToken(t: string, s: string)
    requires CommaFree(t)
    ensures Split(t) == [t] && Split(t + "," + s) == [t] + Split(s)
  {
    if t == "" {
      assert (t + "," + s)[1..] == s;
    } else {
      SplitToken(t[1..], s);
      assert (t + "," + s)[1..] == t[1..] + "," + s && t == [t[0]] + t[1..];
    }
  }

  /** Splitting undoes joining. */
  lemma {:induction false} SplitJoin(ts: seq<string>)
    requires ts != [] && forall t | t in ts :: CommaFree(t)
    ensures Split(Join(ts)) == ts
  {
    assert ts == [ts[0]] + ts[1..];
    hide CommaFree, Split;
    if |ts| == 1 {
      SplitToken(ts[0], "");
    } else {
      SplitJoin(ts[1..]);
      SplitToken(ts[0], Join(ts[1..]));
    }
  }

  lemma {:induction false} SplitCommaFree(s: string)
    ensures forall t | t in Split(s) :: CommaFree(t)
  {
    if s != "" {
      SplitCommaFree(s[1..]);
      var rest := Split(s[1..]);
      assert rest[0] in rest && forall t | t in rest[1..] :: t in rest;
    }
  }

  lemma {:induction false} TrimLeftIs(s: string)
    ensures |TrimLeft(s)| <= |s| && TrimLeft(s) == s[|s| - |TrimLeft(s)|..]
    ensures TrimLeft(s) != "" ==> !IsSpace(TrimLeft(s)[0])
  {
    if s != "" && IsSpace(s[0]) {
      TrimLeftIs(s[1..]);
    }
  }

  lemma {:induction false} TrimRightIs(s: string)
    ensures TrimRight(s) <= s
    ensures TrimRight(s) != "" ==> !IsSpace(TrimRight(s)[|TrimRight(s)| - 1])
  {
    if s != "" && IsSpace(s[|s| - 1]) {
      TrimRightIs(s[..|s| - 1]);
    }
  }

  lemma TrimCleans(s: string)
    requires CommaFree(s)
    ensures Trim(s) == "" || CleanToken(Trim(s))
  {
    TrimLeftIs(s);
    TrimRightIs(TrimLeft(s));
    forall c | c in Trim(s) ensures c in s {
      assert c in TrimLeft(s);
    }
  }

  lemma TrimClean(t: string)
    requires CleanToken(t)
    ensures Trim(t) == t && t != ""
  {}

  predicate Blank(s: string) {
    forall c | c in s :: IsSpace(c)
  }

  lemma {:induction false} TrimLeftDrops(s: string)
    ensures |TrimLeft(s)| <= |s| && s == s[..|s| - |TrimLeft(s)|] + TrimLeft(s) && Blank(s[..|s| - |TrimLeft(s)|])
  {
    if s != "" && IsSpace(s[0]) {
      TrimLeftDrops(s[1..]);
      var n := |s| - |TrimLeft(s)|;
      assert s[..n] == [s[0]] + s[1..][..n - 1];
    }
  }

  lemma {:induction false} TrimRightDrops(s: string)
    ensures |TrimRight(s)| <= |s| && s == TrimRight(s) + s[|TrimRight(s)|..] && Blank(s[|TrimRight(s)|..])
  {
    if s != "" && IsSpace(s[|s| - 1]) {
      var init := s[..|s| - 1];
      TrimRightDrops(init);
      var n := |TrimRight(init)|;
      assert s[n..] == init[n..] + [s[|s| - 1]];
    }
  }

  /** Trimming removes blanks at the ends, all of them, and nothing else. */
  lemma TrimIs(s: string) returns (a: string, b: string)
    ensures s == a + Trim(s) + b && Blank(a) && Blank(b)
    ensures Trim(s) != "" ==> !IsSpace(Trim(s)[0]) && !IsSpace(Trim(s)[|Trim(s)| - 1])
  {
    TrimLeftDrops(s);
    TrimRightDrops(TrimLeft(s));
    TrimLeftIs(s);
    TrimRightIs(TrimLeft(s));
    var u, t := TrimLeft(s), Trim(s);
    a, b := s[..|s| - |u|], u[|t|..];
    hide TrimLeft, TrimRight, Trim, Blank;
    Ends(s, u, t);
  }

  lemma Ends(s: string, u: string, t: string)
    requires |u| <= |s| && u == s[|s| - |u|..] && t <= u
    ensures s == s[..|s| - |u|] + t + u[|t|..]
  {
    assert s == s[..|s| - |u|] + u && u == t + u[|t|..];
  }

  // ---------------------------------------------------------------- normalization

  /** The trimmed, non-empty parts of a list. */
  function Tokens(parts: seq<string>): seq<string> {
    if parts == [] then []
    else
      var t := Trim(parts[|parts| - 1]);
      Tokens(parts[..|parts| - 1]) + if t == "" then [] else [t]
  }

  /** First occurrences only. */
  function Dedup(ts: seq<string>): seq<string> {
    if ts == [] then []
    else
      var r := Dedup(ts[..|ts| - 1]);
      if ts[|ts| - 1] in r then r else r + [ts[|ts| - 1]]
  }

  lemma {:induction false} DedupIs(ts: seq<string>)
    ensures forall t :: t in Dedup(ts) <==> t in ts
    ensures forall i, j | 0 <= i < j < |Dedup(ts)| :: Dedup(ts)[i] != Dedup(ts)[j]
  {
    if ts != [] {
      DedupIs(ts[..|ts| - 1]);
      assert ts == ts[..|ts| - 1] + [ts[|ts| - 1]];
    }
  }

  /** What normalization means: "all" if any token is, else the distinct tokens, else an error. */
  function Normalized(value: string): Option<string> {
    var ts := Tokens(Split(value));
    if "all" in ts then Some("all") else if ts == [] then None else Some(Join(Dedup(ts)))
  }

  /** normalizeAlertChangeTypes: the meaning of the trimmed value. */
  function Normalize(value: string): Option<string> { Normalized(Trim(value)) }

  lemma TokensOneMore(parts: seq<string>, i: nat)
    requires i < |parts|
    ensures var t := Trim(parts[i]);
      Tokens(parts[..i + 1]) == if t == "" then Tokens(parts[..i]) else Tokens(parts[..i]) + [t]
  {
    assert parts[..i + 1][..i] == parts[..i];
  }

  lemma DedupOneMore(ts: seq<string>, t: string)
    ensures Dedup(ts + [t]) == if t in Dedup(ts) then Dedup(ts) else Dedup(ts) + [t]
  {
    assert (ts + [t])[..|ts|] == ts;
  }

  lemma {:induction false} TokensOfPrefix(parts: seq<string>, i: nat)
    requires i <= |parts|
    ensures forall t | t in Tokens(parts[..i]) :: t in Tokens(parts)
    decreases |parts| - i
  {
    if i < |parts| {
      TokensOneMore(parts, i);
      TokensOfPrefix(parts, i + 1);
    } else {
      assert parts[..i] == parts;
    }
  }

  lemma {:induction false} TokensClean(parts: seq<string>)
    requires forall p | p in parts :: CommaFree(p)
    ensures forall t | t in Tokens(parts) :: CleanToken(t)
  {
    if parts != [] {
      TokensClean(parts[..|parts| - 1]);
      TrimCleans(parts[|parts| - 1]);
    }
  }

  /** After `i` parts: the distinct tokens so far, none of them "all". */
  ghost predicate Normalizing(parts: seq<string>, i: nat, normalized: seq<string>, seen: set<string>)
    requires i <= |parts|
  {
    && normalized == Dedup(Tokens(parts[..i])) && "all" !in Tokens(parts[..i])
    && forall t :: t in seen <==> t in normalized
  }

  lemma NormalizingStarts(parts: seq<string>)
    ensures Normalizing(parts, 0, [], {})
  {
    TokensNone(parts);
  }

  lemma NormalizingNext(parts: seq<string>, i: nat, normalized: seq<string>, seen: set<string>)
    requires i < |parts| && Normalizing(parts, i, normalized, seen)
    ensures var part := Trim(parts[i]);
      if part == "all" then "all" in Tokens(parts)
      else if part == "" || part in seen then Normalizing(parts, i + 1, normalized, seen)
      else Normalizing(parts, i + 1, normalized + [part], seen + {part})
  {
    hide Tokens, Trim, Dedup;
    var part := Trim(parts[i]);
    TokensOneMore(parts, i);
    if part == "all" {
      TokensOfPrefix(parts, i + 1);
      assert part in Tokens(parts[..i + 1]);
    }
    DedupOneMore(Tokens(parts[..i]), part);
  }

  lemma NormalizingDone(value: string, parts: seq<string>, normalized: seq<string>, seen: set<string>)
    requires parts == Split(value) && Normalizing(parts, |parts|, normalized, seen)
    ensures Normalized(value) == if normalized == [] then None else Some(Join(normalized))
  {
    hide Split, Tokens, Dedup, Join;
    assert parts[..|parts|] == parts;
    DedupEmpty(Tokens(parts));
  }

  /** The early exits for an empty list and for "all" change nothing. */
  method NormalizeAlertChangeTypes(value0: string) returns (r: Option<string>)
    ensures r == Normalize(value0)
  {
    hide Split, Tokens, Dedup, Trim, Join, Normalizing;
    var value := Trim(value0);
    if value == "" {
      EmptyHasNoTokens();
      return None;
    }
    if value == "all" {
      AllIsAToken();
      return Some("all");
    }
    var parts := Split(value);
    var normalized: seq<string>, seen: set<string> := [], {};
    NormalizingStarts(parts);
    for i := 0 to |parts|
      invariant Normalizing(parts, i, normalized, seen)
    {
      var part := Trim(parts[i]);
      NormalizingNext(parts, i, normalized, seen);
      if part == "" {
        continue;
      }
      if part == "all" {
        return Some("all");
      }
      if part in seen {
        continue;
      }
      seen := seen + {part};
      normalized := normalized + [part];
    }
    NormalizingDone(value, parts, normalized, seen);
    if normalized == [] {
      return None;
    }
    r := Some(Join(normalized));
  }

  lemma DedupEmpty(ts: seq<string>)
    ensures Dedup(ts) == [] <==> ts == []
  {
    DedupIs(ts);
    if ts != [] {
      assert ts[0] in Dedup(ts);
    }
  }

  lemma TokensNone(parts: seq<string>)
    ensures Dedup(Tokens(parts[..0])) == [] && Tokens(parts[..0]) == []
  {}

  lemma EmptyHasNoTokens()
    ensures Tokens(Split("")) == []
  {
    assert Split("") == [""] && Trim("") == "";
    assert [""][..0] == [];
  }

  lemma AllIsAToken()
    ensures "all" in Tokens(Split("all"))
  {
    SplitToken("all", "");
    TrimClean("all");
    assert ["all"][..0] == [];
  }

  lemma {:induction false} TokensOfClean(ts: seq<string>)
    requires forall t | t in ts :: CleanToken(t)
    ensures Tokens(ts) == ts
  {
    hide Trim, CleanToken, Tokens;
    if ts != [] {
      TokensOfClean(ts[..|ts| - 1]);
      TrimClean(ts[|ts| - 1]);
      TokensOneMore(ts, |ts| - 1);
      assert ts == ts[..|ts| - 1] + [ts[|ts| - 1]] && ts[..|ts|] == ts;
    } else {
      TokensNone(ts);
      assert ts[..0] == ts;
    }
  }

  lemma {:induction false} DedupOfDistinct(ts: seq<string>)
    requires forall i, j | 0 <= i < j < |ts| :: ts[i] != ts[j]
    ensures Dedup(ts) == ts
  {
    if ts != [] {
      DedupOfDistinct(ts[..|ts| - 1]);
      assert ts == ts[..|ts| - 1] + [ts[|ts| - 1]];
    }
  }

  /** The stored list parses back to the distinct tokens it was made from, and the result is
      "all" exactly when some token is. */
  lemma NormalizedMeans(value: string)
    ensures var ts := Tokens(Split(value));
      && (Normalized(value) == Some("all") <==> "all" in ts)
      && (Normalized(value) == None <==> ts == [])
      && (Normalized(value).Some? && "all" !in ts ==>
            Split(Normalized(value).value) == Dedup(ts) && forall t | t in Dedup(ts) :: CleanToken(t))
  {
    var ts := Tokens(Split(value));
    SplitCommaFree(value);
    TokensClean(Split(value));
    DedupIs(ts);
    if "all" !in ts && ts != [] {
      assert ts[0] in Dedup(ts);
      SplitJoin(Dedup(ts));
      SplitToken("all", "");
      assert Join(Dedup(ts)) == "all" ==> Dedup(ts) == ["all"];
      assert "all" in ["all"];
    }
  }

  lemma {:induction false} TokensAre(parts: seq<string>)
    ensures forall t :: t in Tokens(parts) <==> t != "" && exists p | p in parts :: Trim(p) == t
  {
    hide Trim;
    if parts != [] {
      var init, last := parts[..|parts| - 1], parts[|parts| - 1];
      TokensAre(init);
      assert parts == init + [last];
    }
  }

  /** In a list, `t` stands before the first `u`. */
  ghost predicate Precedes(ts: seq<string>, t: string, u: string) {
    exists m | 0 <= m < |ts| :: StandsAt(ts, t, u, m)
  }

  predicate StandsAt(ts: seq<string>, t: string, u: string, m: nat)
    requires m < |ts|
  {
    ts[m] == t && u !in ts[..m + 1]
  }

  lemma PrecedesLonger(ts: seq<string>, x: string, t: string, u: string)
    requires Precedes(ts, t, u)
    ensures Precedes(ts + [x], t, u)
  {
    var m :| 0 <= m < |ts| && StandsAt(ts, t, u, m);
    assert (ts + [x])[..m + 1] == ts[..m + 1];
    assert StandsAt(ts + [x], t, u, m);
  }

  /** Distinct tokens stand in the order of their first occurrences. */
  lemma {:induction false} DedupOrder(ts: seq<string>, i: nat, j: nat)
    requires i < j < |Dedup(ts)|
    ensures Precedes(ts, Dedup(ts)[i], Dedup(ts)[j])
  {
    var init, last := ts[..|ts| - 1], ts[|ts| - 1];
    assert ts == init + [last];
    DedupIs(init);
    if j < |Dedup(init)| {
      DedupOrder(init, i, j);
      PrecedesLonger(init, last, Dedup(ts)[i], Dedup(ts)[j]);
    } else {
      var t := Dedup(ts)[i];
      assert t in Dedup(init) && last !in init;
      var m :| 0 <= m < |init| && init[m] == t;
      assert ts[..m + 1] == init[..m + 1];
      assert StandsAt(ts, t, last, m);
    }
  }

  function Trimmed(parts: seq<string>): (r: seq<string>)
    ensures |r| == |parts| && forall i | 0 <= i < |parts| :: r[i] == Trim(parts[i])
  {
    seq(|parts|, i requires 0 <= i < |parts| => Trim(parts[i]))
  }

  lemma {:induction false} TokensOrder(parts: seq<string>, t: string, u: string)
    requires t != "" && u != "" && Precedes(Tokens(parts), t, u)
    ensures Precedes(Trimmed(parts), t, u)
  {
    hide Trim, Precedes;
    if parts == [] {
      NothingPrecedes(t, u);
    } else {
      var init, x := parts[..|parts| - 1], Trim(parts[|parts| - 1]);
      assert Trimmed(parts) == Trimmed(init) + [x];
      TokensAre(init);
      var m := PrecedesAt(Tokens(parts), t, u);
      if m < |Tokens(init)| {
        assert Tokens(parts)[..m + 1] == Tokens(init)[..m + 1];
        AtPrecedes(Tokens(init), t, u, m);
        TokensOrder(init, t, u);
        PrecedesLonger(Trimmed(init), x, t, u);
      } else {
        assert Tokens(parts)[..m + 1] == Tokens(init) + [x];
        forall k | 0 <= k < |init| ensures Trimmed(init)[k] != u {
          assert init[k] in init;
        }
        AtPrecedes(Trimmed(parts), t, u, |init|);
      }
    }
  }

  lemma NothingPrecedes(t: string, u: string)
    ensures !Precedes([], t, u)
  {}

  lemma PrecedesAt(ts: seq<string>, t: string, u: string) returns (m: nat)
    requires Precedes(ts, t, u)
    ensures m < |ts| && StandsAt(ts, t, u, m)
  {
    m :| 0 <= m < |ts| && StandsAt(ts, t, u, m);
  }

  lemma AtPrecedes(ts: seq<string>, t: string, u: string, m: nat)
    requires m < |ts| && StandsAt(ts, t, u, m)
    ensures Precedes(ts, t, u)
  {}

  /** What normalization returns, from the trimmed comma parts of the value: "all" if one of them
      is, an error if all are empty, and else a list that parses back to the distinct non-empty
      ones, in the order in which they first occur. */
  lemma NormalizeMeans(value: string)
    ensures var parts, r := Trimmed(Split(Trim(value))), Normalize(value);
      && (r == Some("all") <==> "all" in parts)
      && (r == None <==> forall p | p in parts :: p == "")
      && (r.Some? && r != Some("all") ==>
            var ts := Split(r.value);
            && (forall t :: t in ts <==> t != "" && t in parts)
            && (forall i, j | 0 <= i < j < |ts| :: ts[i] != ts[j] && Precedes(parts, ts[i], ts[j])))
  {
    var split := Split(Trim(value));
    NormalizedMeans(Trim(value));
    TokensAre(split);
    DedupIs(Tokens(split));
    DedupEmpty(Tokens(split));
    MembersTrimmed(split);
    var ts := Dedup(Tokens(split));
    hide Trim, Split, Tokens, Dedup, Normalized, Precedes, Trimmed;
    forall i, j | 0 <= i < j < |ts| ensures Precedes(Trimmed(split), ts[i], ts[j]) {
      DedupOrder(Tokens(split), i, j);
      assert ts[i] in ts && ts[j] in ts;
      TokensOrder(split, ts[i], ts[j]);
    }
    NoTokens(split);
  }

  lemma MembersTrimmed(parts: seq<string>)
    ensures forall t :: t in Trimmed(parts) <==> exists p | p in parts :: Trim(p) == t
  {
    hide Trim;
    forall p | p in parts ensures Trim(p) in Trimmed(parts) {
      var i :| 0 <= i < |parts| && parts[i] == p;
      assert Trimmed(parts)[i] == Trim(p);
    }
  }

  lemma NoTokens(parts: seq<string>)
    ensures Tokens(parts) == [] <==> forall p | p in Trimmed(parts) :: p == ""
  {
    hide Trim, Tokens;
    TokensAre(parts);
    MembersTrimmed(parts);
    forall p | p in Trimmed(parts) && p != "" ensures p in Tokens(parts) {}
    if Tokens(parts) != [] {
      var t := Tokens(parts)[0];
      assert t in Tokens(parts);
      assert t in Trimmed(parts) && t != "";
    }
  }

  /** A text that is not empty and has no blank at either end. */
  predicate Tight(s: string) {
    s != "" && !IsSpace(s[0]) && !IsSpace(s[|s| - 1])
  }

  lemma TrimTight(s: string)
    requires Tight(s)
    ensures Trim(s) == s
  {}

  /** A joined list of clean tokens starts with its first token and ends with its last. */
  lemma {:induction false} JoinTight(ts: seq<string>)
    requires ts != [] && forall t | t in ts :: CleanToken(t)
    ensures Tight(Join(ts))
  {
    assert ts[0] in ts;
    if |ts| > 1 {
      assert forall t | t in ts[1..] :: t in ts;
      JoinTight(ts[1..]);
      hide Join;
      JoinSteps(ts);
    }
  }

  lemma JoinSteps(ts: seq<string>)
    requires |ts| > 1 && ts[0] != "" && Join(ts[1..]) != ""
    ensures Join(ts) != "" && Join(ts)[0] == ts[0][0]
    ensures Join(ts)[|Join(ts)| - 1] == Join(ts[1..])[|Join(ts[1..])| - 1]
  {}

  lemma NormalizedIdempotent(value: string)
    requires Normalized(value).Some?
    ensures Normalized(Normalized(value).value) == Normalized(value)
  {
    NormalizedMeans(value);
    var ts := Tokens(Split(value));
    if "all" in ts {
      AllIsAToken();
    } else {
      DedupIs(ts);
      TokensOfClean(Dedup(ts));
      DedupOfDistinct(Dedup(ts));
    }
  }

  /** What normalization returns, trimming leaves alone. */
  lemma NormalizedTight(value: string)
    requires Normalized(value).Some?
    ensures Trim(Normalized(value).value) == Normalized(value).value
  {
    NormalizedMeans(value);
    var ts := Tokens(Split(value));
    if "all" in ts {
      TrimTight("all");
    } else {
      DedupEmpty(ts);
      JoinTight(Dedup(ts));
      TrimTight(Join(Dedup(ts)));
    }
  }

  /** Normalizing is idempotent. */
  lemma NormalizeIdempotent(value: string)
    requires Normalize(value).Some?
    ensures Normalize(Normalize(value).value) == Normalize(value)
  {
    NormalizedIdempotent(Trim(value));
    NormalizedTight(Trim(value));
    hide Normalized, Trim;
  }

  // ---------------------------------------------------------------- the two matchers

  predicate FoundAt(s: string, p: string, i: nat) {
    i + |p| <= |s| && s[i..i + |p|] == p
  }

  predicate Contains(s: string, p: string) {
    exists i | 0 <= i <= |s| :: FoundAt(s, p, i)
  }

  /** REPLACE(s, ' ', ''). */
  function Strip(s: string): string {
    if s == "" then "" else (if s[0] == ' ' then "" else [s[0]]) + Strip(s[1..])
  }

  predicate SQLiteMatches(types: string, changeType: string) {
    types == "all" || Contains("," + Strip(types) + ",", "," + Strip(Trim(changeType)) + ",")
  }

  predicate PostgresMatches(types: string, changeType: string) {
    types == "all" || (types != "" && Trim(changeType) in Split(types))
  }

  function Wrapped(us: seq<string>): string {
    if us == [] then "," else "," + us[0] + Wrapped(us[1..])
  }

  lemma {:induction false} WrapJoin(us: seq<string>)
    requires us != []
    ensures "," + Join(us) + "," == Wrapped(us)
  {
    if |us| == 1 {
      assert us[1..] == [];
    } else {
      WrapJoin(us[1..]);
      assert "," + Join(us) + "," == "," + us[0] + ("," + Join(us[1..]) + ",");
    }
  }

  lemma Letters(s: string, p: string, i: nat)
    requires FoundAt(s, p, i)
    ensures forall k | 0 <= k < |p| :: p[k] == s[i + k]
  {
    forall k | 0 <= k < |p| ensures p[k] == s[i + k] {
      assert s[i..i + |p|][k] == p[k];
    }
  }

  /** What starts with a comma is in "," + u + rest either at the front or within the rest. */
  lemma AtFrontOrWithin(u: string, rest: string, p: string, i: nat)
    requires CommaFree(u) && p != "" && p[0] == ',' && FoundAt("," + u + rest, p, i)
    ensures i > 0 ==> i > |u| && FoundAt(rest, p, i - 1 - |u|)
  {
    var s := "," + u + rest;
    Letters(s, p, i);
    assert forall k | 1 <= k <= |u| :: s[k] == u[k - 1] && u[k - 1] != ',';
    if i > 0 {
      assert s[i + 0] == ',';
      var j := i - 1 - |u|;
      forall k | 0 <= k < |p| ensures rest[j..j + |p|][k] == p[k] {
        assert rest[j + k] == s[i + k];
      }
      assert rest[j..j + |p|] == p;
    }
  }

  lemma WrappedStarts(us: seq<string>)
    ensures Wrapped(us) != "" && Wrapped(us)[0] == ','
  {}

  predicate AllCommaFree(us: seq<string>) {
    forall u | u in us :: CommaFree(u)
  }

  lemma TokenLength(x: string, a: string, u: string, b: string)
    requires CommaFree(x) && CommaFree(u) && a != "" && a[0] == ',' && b != "" && b[0] == ','
    requires x + a <= u + b
    ensures |x| == |u|
  {
    var p, s := x + a, u + b;
    assert p[|x|] == ',' == s[|u|] && p == s[..|p|];
    assert forall k | 0 <= k < |u| :: s[k] == u[k] && u[k] in u;
    assert forall k | 0 <= k < |x| :: p[k] == x[k] && x[k] in x;
  }

  lemma SameLengthPrefix(x: string, a: string, u: string, b: string)
    requires |x| == |u|
    ensures x + a <= u + b <==> x == u && a <= b
  {
    assert (x + a)[..|x|] == x && (u + b)[..|u|] == u && (x + a)[|x|..] == a && (u + b)[|u|..] == b;
    if x + a <= u + b {
      assert x == (u + b)[..|x + a|][..|x|] == u;
      assert a == (u + b)[..|x + a|][|x|..] == (u + b)[|u|..][..|a|] == b[..|a|];
    }
  }

  /** A comma-free text before a comma is determined by the whole. */
  lemma TokenIsFixed(x: string, a: string, u: string, b: string)
    requires CommaFree(x) && CommaFree(u) && a != "" && a[0] == ',' && b != "" && b[0] == ','
    ensures "," + x + a <= "," + u + b <==> x == u && a <= b
  {
    hide CommaFree;
    assert "," + x + a == "," + (x + a) && "," + u + b == "," + (u + b);
    SameLengthPrefix(",", x + a, ",", u + b);
    if x + a <= u + b {
      TokenLength(x, a, u, b);
    }
    if |x| == |u| {
      SameLengthPrefix(x, a, u, b);
    }
  }

  lemma {:induction false} WrappedPrefix(us: seq<string>, xs: seq<string>)
    requires AllCommaFree(us) && AllCommaFree(xs)
    ensures Wrapped(xs) <= Wrapped(us) <==> xs <= us
  {
    WrappedStarts(us);
    if xs == [] {
      assert Wrapped(us)[..1] == ",";
    } else if us != [] {
      WrappedPrefix(us[1..], xs[1..]);
      WrappedStarts(us[1..]);
      WrappedStarts(xs[1..]);
      TokenIsFixed(xs[0], Wrapped(xs[1..]), us[0], Wrapped(us[1..]));
      assert us == [us[0]] + us[1..] && xs == [xs[0]] + xs[1..];
      assert xs <= us <==> xs[0] == us[0] && xs[1..] <= us[1..];
    }
  }

  /** `xs` stands in `us` as consecutive elements. */
  predicate Segment(xs: seq<string>, us: seq<string>) {
    exists i | 0 <= i <= |us| :: xs <= us[i..]
  }

  lemma SegmentFirst(xs: seq<string>, us: seq<string>)
    requires us != []
    ensures Segment(xs, us) <==> xs <= us || Segment(xs, us[1..])
  {
    if xs <= us {
      assert us[0..] == us;
    }
    if i :| 0 <= i <= |us[1..]| && xs <= us[1..][i..] {
      assert us[i + 1..] == us[1..][i..];
    }
    if i :| 0 < i <= |us| && xs <= us[i..] {
      assert us[1..][i - 1..] == us[i..];
    }
  }

  /** A comma-wrapped search finds exactly the runs of consecutive tokens. */
  lemma {:induction false} WrappedContains(us: seq<string>, xs: seq<string>)
    requires AllCommaFree(us) && AllCommaFree(xs) && xs != []
    ensures Contains(Wrapped(us), Wrapped(xs)) <==> Segment(xs, us)
  {
    hide FoundAt, AllCommaFree, Segment, Wrapped;
    var s, p := Wrapped(us), Wrapped(xs);
    WrappedStarts(xs);
    PrefixFound(s, p);
    if us == [] {
      NotInComma(xs);
    } else {
      var rest := Wrapped(us[1..]);
      CommaFreeTail(us);
      WrappedContains(us[1..], xs);
      WrappedPrefix(us, xs);
      SegmentFirst(xs, us);
      WrappedFirst(us);
      forall i: nat | FoundAt(s, p, i) ensures i == 0 || Contains(rest, p) {
        AtFrontOrWithin(us[0], rest, p, i);
        if i > 0 {
          Bound(rest, p, i - 1 - |us[0]|);
        }
      }
      if j: nat :| j <= |rest| && FoundAt(rest, p, j) {
        ShiftFound("," + us[0], rest, p, j);
      }
    }
  }

  lemma WrappedFirst(us: seq<string>)
    requires us != []
    ensures Wrapped(us) == "," + us[0] + Wrapped(us[1..])
  {}

  lemma CommaFreeTail(us: seq<string>)
    requires us != [] && AllCommaFree(us)
    ensures CommaFree(us[0]) && AllCommaFree(us[1..])
  {}

  lemma PrefixFound(s: string, p: string)
    ensures FoundAt(s, p, 0) <==> p <= s
  {}

  lemma NotInComma(xs: seq<string>)
    requires xs != []
    ensures !Contains(Wrapped([]), Wrapped(xs)) && !Segment(xs, [])
  {
    WrappedStarts(xs[1..]);
  }

  lemma Bound(s: string, p: string, i: nat)
    requires FoundAt(s, p, i)
    ensures i <= |s|
  {}

  lemma ShiftFound(a: string, s: string, p: string, j: nat)
    requires FoundAt(s, p, j)
    ensures FoundAt(a + s, p, |a| + j) && |a| + j <= |a + s|
  {
    assert (a + s)[|a| + j..|a| + j + |p|] == s[j..j + |p|];
  }

  function Kept(c: char): string { if c == ' ' then "" else [c] }

  lemma StripFirst(c: char, s: string)
    ensures Strip([c] + s) == Kept(c) + Strip(s)
  {
    assert ([c] + s)[1..] == s;
  }

  lemma {:induction false} StripAppend(a: string, b: string)
    ensures Strip(a + b) == Strip(a) + Strip(b)
  {
    if a == "" {
      assert a + b == b;
    } else {
      hide Strip, Kept;
      StripAppend(a[1..], b);
      StripFirst(a[0], a[1..]);
      StripFirst(a[0], a[1..] + b);
      HeadTail(a, b);
      Regroup(Kept(a[0]), Strip(a[1..]), Strip(b));
    }
  }

  lemma HeadTail(a: string, b: string)
    requires a != ""
    ensures a == [a[0]] + a[1..] && a + b == [a[0]] + (a[1..] + b)
  {}

  lemma Regroup(a: string, b: string, c: string)
    ensures (a + b) + c == a + (b + c)
  {}

  function Stripped(ts: seq<string>): (r: seq<string>)
    ensures |r| == |ts| && forall i | 0 <= i < |ts| :: r[i] == Strip(ts[i])
  {
    seq(|ts|, i requires 0 <= i < |ts| => Strip(ts[i]))
  }

  lemma {:induction false} StripJoin(ts: seq<string>)
    ensures Strip(Join(ts)) == Join(Stripped(ts))
  {
    if |ts| > 1 {
      StripJoin(ts[1..]);
      StripAppend(ts[0] + ",", Join(ts[1..]));
      StripAppend(ts[0], ",");
      assert Stripped(ts)[1..] == Stripped(ts[1..]);
    } else if |ts| == 1 {
      assert Stripped(ts) == [Strip(ts[0])];
    }
  }

  lemma {:induction false} StripKeepsCommaFree(s: string)
    ensures CommaFree(s) ==> CommaFree(Strip(s))
    ensures ' ' !in s ==> Strip(s) == s
  {
    if s != "" {
      StripKeepsCommaFree(s[1..]);
      assert s == [s[0]] + s[1..];
    }
  }

  /** Joining undoes splitting. */
  lemma {:induction false} JoinSplit(s: string)
    ensures Join(Split(s)) == s
  {
    if s != "" {
      JoinSplit(s[1..]);
      var rest := Split(s[1..]);
      if s[0] == ',' {
        assert ([""] + rest)[1..] == rest;
        assert s == "" + "," + s[1..];
      } else {
        var r := [[s[0]] + rest[0]] + rest[1..];
        assert r[1..] == rest[1..];
        if |rest| > 1 {
          assert [s[0]] + rest[0] + "," + Join(rest[1..]) == [s[0]] + (rest[0] + "," + Join(rest[1..]));
        }
        assert s == [s[0]] + s[1..];
      }
    }
  }

  /** What each store computes on a normalized list other than "all": Postgres tests membership;
      SQLite looks, up to blanks, for the change type's comma parts as consecutive tokens. */
  lemma ListMatchers(ts: seq<string>, changeType: string)
    requires ts != [] && (forall t | t in ts :: CleanToken(t)) && Join(ts) != "all"
    ensures PostgresMatches(Join(ts), changeType) <==> Trim(changeType) in ts
    ensures SQLiteMatches(Join(ts), changeType) <==> Segment(Split(Strip(Trim(changeType))), Stripped(ts))
  {
    var x := Trim(changeType);
    var xs := Split(Strip(x));
    SplitJoin(ts);
    assert ts[0] in ts;
    StripJoin(ts);
    WrapJoin(Stripped(ts));
    JoinSplit(Strip(x));
    WrapJoin(xs);
    SplitCommaFree(Strip(x));
    forall t | t in Stripped(ts) ensures CommaFree(t) {
      var i :| 0 <= i < |ts| && Stripped(ts)[i] == t;
      assert ts[i] in ts;
      StripKeepsCommaFree(ts[i]);
    }
    WrappedContains(Stripped(ts), xs);
    hide Contains, Segment;
  }

  /** The stores agree exactly when the change type is listed itself, or its comma parts are not
      consecutive tokens of the list up to blanks. */
  lemma ListMatchersAgree(ts: seq<string>, changeType: string)
    requires ts != [] && (forall t | t in ts :: CleanToken(t)) && Join(ts) != "all"
    ensures (SQLiteMatches(Join(ts), changeType) <==> PostgresMatches(Join(ts), changeType)) <==>
            Trim(changeType) in ts || !Segment(Split(Strip(Trim(changeType))), Stripped(ts))
  {
    ListMatchers(ts, changeType);
    hide SQLiteMatches, PostgresMatches, Segment;
    var x := Trim(changeType);
    if x in ts {
      ListedIsSegment(ts, x);
    }
  }

  lemma ListedIsSegment(ts: seq<string>, x: string)
    requires x in ts && forall t | t in ts :: CleanToken(t)
    ensures Segment(Split(Strip(x)), Stripped(ts))
  {
    StripKeepsCommaFree(x);
    SplitToken(Strip(x), "");
    var i :| 0 <= i < |ts| && ts[i] == x;
    assert Stripped(ts)[i..][0] == Strip(x);
  }

  /** A rule for "all" matches every change type in both stores. */
  lemma AllMatches(value: string, changeType: string)
    requires Normalize(value) == Some("all")
    ensures SQLiteMatches("all", changeType) && PostgresMatches("all", changeType)
  {}

  lemma CleanList(value: string) returns (ts: seq<string>)
    requires Normalize(value).Some? && Normalize(value) != Some("all")
    ensures ts != [] && (forall t | t in ts :: CleanToken(t))
    ensures Join(ts) == Normalize(value).value && Split(Normalize(value).value) == ts
  {
    var tokens := Tokens(Split(Trim(value)));
    NormalizedMeans(Trim(value));
    ts := Dedup(tokens);
    DedupEmpty(tokens);
    hide Split, Tokens, Dedup, Trim;
  }

  /** What each store computes on any normalized value: "all" always matches; else Postgres tests
      membership in the list, and SQLite looks, up to blanks, for the change type's comma parts as
      consecutive tokens of it. */
  lemma MatchersMean(value: string, changeType: string)
    requires Normalize(value).Some?
    ensures var types := Normalize(value).value;
      && (PostgresMatches(types, changeType) <==> types == "all" || Trim(changeType) in Split(types))
      && (SQLiteMatches(types, changeType) <==>
            types == "all" || Segment(Split(Strip(Trim(changeType))), Stripped(Split(types))))
  {
    if Normalize(value) == Some("all") {
      AllMatches(value, changeType);
    } else {
      var ts := CleanList(value);
      ListMatchers(ts, changeType);
    }
    hide SQLiteMatches, PostgresMatches, Segment, Normalize, Split, Strip, Trim;
  }

  /** The stores agree on any normalized value exactly when it is "all", lists the change type, or
      does not have its comma parts as consecutive tokens up to blanks. */
  lemma MatchersAgree(value: string, changeType: string)
    requires Normalize(value).Some?
    ensures var types := Normalize(value).value;
      (SQLiteMatches(types, changeType) <==> PostgresMatches(types, changeType)) <==>
      || types == "all" || Trim(changeType) in Split(types)
      || !Segment(Split(Strip(Trim(changeType))), Stripped(Split(types)))
  {
    if Normalize(value) == Some("all") {
      AllMatches(value, changeType);
    } else {
      var ts := CleanList(value);
      ListMatchersAgree(ts, changeType);
    }
    hide SQLiteMatches, PostgresMatches, Segment, Normalize, Split, Strip, Trim;
  }

  /** With blank-free tokens and change type, both are plain membership. */
  lemma BlankFreeAgree(ts: seq<string>, changeType: string)
    requires ts != [] && (forall t | t in ts :: CleanToken(t) && ' ' !in t) && Join(ts) != "all"
    requires CommaFree(Trim(changeType)) && ' ' !in Trim(changeType)
    ensures SQLiteMatches(Join(ts), changeType) <==> Trim(changeType) in ts
    ensures PostgresMatches(Join(ts), changeType) <==> Trim(changeType) in ts
  {
    ListMatchers(ts, changeType);
    hide SQLiteMatches, PostgresMatches, Segment;
    StripKeepsCommaFree(Trim(changeType));
    SplitToken(Trim(changeType), "");
    forall i | 0 <= i < |ts| ensures Stripped(ts)[i] == ts[i] {
      assert ts[i] in ts;
      StripKeepsCommaFree(ts[i]);
    }
    assert Stripped(ts) == ts;
    SegmentOne(Trim(changeType), ts);
  }

  lemma SegmentOne(x: string, us: seq<string>)
    ensures Segment([x], us) <==> x in us
  {
    if x in us {
      var i :| 0 <= i < |us| && us[i] == x;
      assert us[i..][0] == x;
    }
    if i :| 0 <= i <= |us| && [x] <= us[i..] {
      assert us[i..][0] == us[i];
    }
  }

  lemma FoundWhole(w: string)
    ensures Contains(w, w)
  {
    assert w[0..0 + |w|] == w;
    assert FoundAt(w, w, 0);
  }

  /** A blank inside a stored token makes the stores disagree. */
  lemma BlankDisagrees()
    ensures SQLiteMatches("a b", "ab") && !PostgresMatches("a b", "ab")
  {
    TrimClean("ab");
    hide Trim, Contains, Wrapped, Split;
    assert Strip("ab") == "ab" && Strip("a b") == "ab" by {
      assert "ab"[1..] == "b" && "a b"[1..] == " b" && " b"[1..] == "b";
    }
    assert Join(["a b"]) == "a b" && CleanToken("a b") && "ab" !in ["a b"];
    ListMatchers(["a b"], "ab");
    SplitToken("ab", "");
    hide Segment;
    assert Stripped(["a b"]) == ["ab"];
    SegmentOne("ab", ["ab"]);
  }

  /** So does a comma in the change type. */
  lemma CommaDisagrees()
    ensures SQLiteMatches("a,b", "a,b") && !PostgresMatches("a,b", "a,b")
  {
    assert Trim("a,b") == "a,b";
    hide Trim;
    FoundWhole("," + Strip("a,b") + ",");
    SplitToken("a", "b");
    SplitToken("b", "");
    hide Strip, Split, Contains;
    assert "a" + "," + "b" == "a,b" && ["a"] + ["b"] == ["a", "b"] && "a,b" != "a" && "a,b" != "b";
  }
}
