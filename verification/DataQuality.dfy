/** Data-quality rules: the queries built for a rule, their evaluation on one snapshot of a
    column with SQL null semantics, and the result computed from the counts. */
module DataQuality {
  import opened Options

  datatype Value = Num(n: real) | Text(s: string)

  /** Comparison and pattern matching as the source database does them; the last argument of
      `matches` asks to ignore case. */
  datatype Engine = Engine(less: (Value, Value) -> bool, matches: (Value, seq<Value>, bool) -> bool)

  datatype Dialect = MySQL | PostgreSQL

  /** Lower case as far as the letter "i" goes: in Go's tables U+0130 lowers to it, too. */
  function Lower(c: char): char {
    if 'A' <= c <= 'Z' then (c as int + 32) as char else if c == '\U{0130}' then 'i' else c
  }

  function Lowered(flags: string): string {
    if flags == "" then "" else [Lower(flags[0])] + Lowered(flags[1..])
  }

  /** Whether the lowered flags contain an "i". */
  predicate IgnoresCase(flags: string) { 'i' in Lowered(flags) }

  lemma LowerI(c: char)
    ensures Lower(c) == 'i' <==> c == 'i' || c == 'I' || c == '\U{0130}'
  {
    assert 'I' as int + 32 == 'i' as int;
  }

  lemma {:induction false} IgnoresCaseMeans(flags: string)
    ensures IgnoresCase(flags) <==> exists c | c in flags :: c == 'i' || c == 'I' || c == '\U{0130}'
  {
    if flags != "" {
      IgnoresCaseMeans(flags[1..]);
      LowerI(flags[0]);
      hide Lower;
      assert 'i' in Lowered(flags) <==> Lower(flags[0]) == 'i' || 'i' in Lowered(flags[1..]);
      hide Lowered;
      assert flags == [flags[0]] + flags[1..];
      if c :| c in flags[1..] && (c == 'i' || c == 'I' || c == '\U{0130}') {
        assert c in flags;
      }
      assert flags[0] in flags;
    }
  }

  type Cells = seq<Option<Value>>

  datatype Rule =
    | NotNull
    | Unique
    | Regex(pattern: string, flags: string)
    | Range(min: Option<real>, max: Option<real>)
    | Enum(values: seq<string>)
    | Referential(reference: Cells)

  // ---------------------------------------------------------------- queries

  /** A WHERE clause on one column. A hole is a placeholder with the position it was built for:
      printed "$n" for Postgres, "?" for MySQL. */
  datatype Cond =
    | IsNull
    | IsNotNull
    | LessThan(hole: nat)
    | GreaterThan(hole: nat)
    | NotIn(holes: seq<nat>)
    | NotMatching(holes: seq<nat>, ignoreCase: bool)
    | NotExistsIn(reference: Cells)
    | Or(left: Cond, right: Cond)
    | And(left: Cond, right: Cond)

  datatype Query = CountWhere(cond: Cond) | SumOfSurplus
  datatype Sample = RowsWhere(cond: Cond) | Duplicates
  datatype Limited = Limited(sample: Sample, limitHole: nat)

  datatype Queries = Queries(failed: Query, failedArgs: seq<Value>, sample: Sample, sampleArgs: seq<Value>)

  /** The holes in the order in which they are printed. */
  function Holes(c: Cond): seq<nat> {
    match c
    case LessThan(h) => [h]
    case GreaterThan(h) => [h]
    case NotIn(hs) => hs
    case NotMatching(hs, _) => hs
    case Or(l, r) => Holes(l) + Holes(r)
    case And(l, r) => Holes(l) + Holes(r)
    case _ => []
  }

  function QueryHoles(q: Query): seq<nat> { if q.CountWhere? then Holes(q.cond) else [] }
  function SampleHoles(s: Sample): seq<nat> { if s.RowsWhere? then Holes(s.cond) else [] }

  /** The holes are numbered 1, 2, ... in printed order, one per argument, so binding by number
      and binding by order of appearance give every hole the same argument. */
  predicate InOrder(holes: seq<nat>, args: seq<Value>) {
    |holes| == |args| && forall i | 0 <= i < |holes| :: holes[i] == i + 1
  }

  function RangeCond(min: Option<real>, max: Option<real>): Cond
    requires min.Some? || max.Some?
  {
    if min.None? then GreaterThan(1) else if max.None? then LessThan(1) else Or(LessThan(1), GreaterThan(2))
  }

  function RangeArgs(min: Option<real>, max: Option<real>): seq<Value> {
    (if min.Some? then [Num(min.value)] else []) + (if max.Some? then [Num(max.value)] else [])
  }

  function Texts(values: seq<string>): (r: seq<Value>)
    ensures |r| == |values| && forall i | 0 <= i < |r| :: r[i] == Text(values[i])
  {
    seq(|values|, i requires 0 <= i < |values| => Text(values[i]))
  }

  /** The range conditions, each numbered by the arguments collected before it. */
  method BuildRange(min: Option<real>, max: Option<real>) returns (cond: Option<Cond>, args: seq<Value>)
    ensures cond.None? <==> min.None? && max.None?
    ensures cond.Some? ==> cond.value == RangeCond(min, max) && args == RangeArgs(min, max)
  {
    var conditions: seq<Cond> := [];
    args := [];
    if min.Some? {
      conditions := conditions + [LessThan(|args| + 1)];
      args := args + [Num(min.value)];
    }
    if max.Some? {
      conditions := conditions + [GreaterThan(|args| + 1)];
      args := args + [Num(max.value)];
    }
    if |conditions| == 0 {
      return None, [];
    }
    cond := Some(if |conditions| == 1 then conditions[0] else Or(conditions[0], conditions[1]));
  }

  /** The placeholder list of an enum rule, one per value. */
  method BuildEnum(values: seq<string>) returns (placeholders: seq<nat>, args: seq<Value>)
    ensures args == Texts(values) && InOrder(placeholders, args)
  {
    placeholders, args := [], [];
    for i := 0 to |values|
      invariant |placeholders| == i && |args| == i
      invariant forall j | 0 <= j < i :: placeholders[j] == j + 1 && args[j] == Text(values[j])
    {
      placeholders := placeholders + [|args| + 1];
      args := args + [Text(values[i])];
    }
    assert args == Texts(values);
  }

  /** The queries for a rule, or None where the source reports an error. */
  method BuildRuleQueries(rule: Rule, hasColumn: bool, d: Dialect) returns (r: Option<Queries>)
    ensures r.None? <==>
      !hasColumn || (rule.Range? && rule.min.None? && rule.max.None?) || (rule.Enum? && rule.values == [])
    ensures r.Some? ==> InOrder(QueryHoles(r.value.failed), r.value.failedArgs)
    ensures r.Some? ==> InOrder(SampleHoles(r.value.sample), r.value.sampleArgs)
    ensures r.Some? ==> Expresses(rule, d, r.value.failed, r.value.failedArgs)
    ensures r.Some? ==> r.value.sampleArgs == r.value.failedArgs && r.value.sample == SampleOf(r.value.failed)
  {
    hide InOrder, Holes, Texts, RangeCond, RangeArgs;
    if !hasColumn {
      return None;
    }
    var query, args := SumOfSurplus, [];
    match rule {
      case NotNull =>
        query := CountWhere(IsNull);
      case Unique =>
      case Regex(pattern, flags) =>
        if d.PostgreSQL? || flags == "" {
          var ignoreCase := d.PostgreSQL? && IgnoresCase(flags);
          query, args := CountWhere(And(IsNotNull, NotMatching([1], ignoreCase))), [Text(pattern)];
        } else {
          query, args := CountWhere(And(IsNotNull, NotMatching([1, 2], false))), [Text(pattern), Text(flags)];
        }
      case Range(min, max) =>
        var cond;
        cond, args := BuildRange(min, max);
        if cond.None? {
          return None;
        }
        query := CountWhere(cond.value);
      case Enum(values) =>
        if values == [] {
          return None;
        }
        var placeholders;
        placeholders, args := BuildEnum(values);
        query := CountWhere(And(IsNotNull, NotIn(placeholders)));
      case Referential(reference) =>
        query := CountWhere(And(IsNotNull, NotExistsIn(reference)));
    }
    ExpressesInOrder(rule, d, query, args);
    r := Some(Queries(query, args, SampleOf(query), args));
  }

  /** The sample shows the rows the count counts. */
  function SampleOf(q: Query): Sample {
    match q
    case CountWhere(c) => RowsWhere(c)
    case SumOfSurplus => Duplicates
  }

  lemma ExpressesInOrder(rule: Rule, d: Dialect, q: Query, args: seq<Value>)
    requires Expresses(rule, d, q, args)
    ensures InOrder(QueryHoles(q), args) && InOrder(SampleHoles(SampleOf(q)), args)
  {
    hide Holes, Texts, RangeArgs;
    match rule
    case Enum(_) => HolesOfPair(q.cond.left, q.cond.right);
    case Regex(_, _) => HolesOfPair(q.cond.left, q.cond.right);
    case Referential(_) => HolesOfPair(q.cond.left, q.cond.right);
    case Range(min, max) => RangeInOrder(min, max);
    case NotNull => HolesOfOne(IsNull);
    case Unique =>
  }

  lemma HolesOfOne(c: Cond)
    requires !c.And? && !c.Or?
    ensures Holes(c) == match c
      case LessThan(h) => [h]
      case GreaterThan(h) => [h]
      case NotIn(hs) => hs
      case NotMatching(hs, _) => hs
      case _ => []
  {}

  lemma HolesOfPair(l: Cond, r: Cond)
    requires l.IsNotNull? && (r.NotIn? || r.NotMatching? || r.NotExistsIn?)
    ensures Holes(And(l, r)) == if r.NotExistsIn? then [] else r.holes
  {
    assert Holes(And(l, r)) == Holes(l) + Holes(r);
  }

  lemma RangeInOrder(min: Option<real>, max: Option<real>)
    requires min.Some? || max.Some?
    ensures InOrder(Holes(RangeCond(min, max)), RangeArgs(min, max))
  {
    if min.Some? && max.Some? {
      assert Holes(Or(LessThan(1), GreaterThan(2))) == [1] + [2];
    }
  }

  /** The query has the rule's shape and binds the rule's own values. */
  predicate Expresses(rule: Rule, d: Dialect, q: Query, args: seq<Value>) {
    match rule
    case NotNull => q == CountWhere(IsNull) && args == []
    case Unique => q == SumOfSurplus && args == []
    case Regex(p, f) =>
      if d.PostgreSQL? || f == "" then
        q == CountWhere(And(IsNotNull, NotMatching([1], d.PostgreSQL? && IgnoresCase(f)))) && args == [Text(p)]
      else q == CountWhere(And(IsNotNull, NotMatching([1, 2], false))) && args == [Text(p), Text(f)]
    case Range(min, max) =>
      && (min.Some? || max.Some?) && q == CountWhere(RangeCond(min, max))
      && args == RangeArgs(min, max)
    case Enum(values) =>
      && args == Texts(values) && q.CountWhere? && q.cond.And? && q.cond.left == IsNotNull && q.cond.right.NotIn?
      && InOrder(q.cond.right.holes, args)
    case Referential(reference) => q == CountWhere(And(IsNotNull, NotExistsIn(reference))) && args == []
  }

  /** appendLimit: the limit is one more argument, in the next hole. */
  method AppendLimit(sample: Sample, args: seq<Value>, limit: int) returns (l: Limited, more: seq<Value>)
    requires InOrder(SampleHoles(sample), args)
    ensures l.sample == sample && more == args + [Num((if limit <= 0 then 5 else limit) as real)]
    ensures InOrder(SampleHoles(sample) + [l.limitHole], more)
  {
    var n := limit;
    if n <= 0 {
      n := 5;
    }
    l := Limited(sample, |args| + 1);
    more := args + [Num(n as real)];
  }

  // ---------------------------------------------------------------- evaluation

  datatype Truth = True | False | Unknown

  function AndT(a: Truth, b: Truth): Truth {
    if a.False? || b.False? then False else if a.True? && b.True? then True else Unknown
  }

  function OrT(a: Truth, b: Truth): Truth {
    if a.True? || b.True? then True else if a.False? && b.False? then False else Unknown
  }

  function Of(b: bool): Truth { if b then True else False }

  function Arg(args: seq<Value>, hole: nat): Value {
    if 1 <= hole <= |args| then args[hole - 1] else Num(0.0)
  }

  function Bound(args: seq<Value>, holes: seq<nat>): (r: seq<Value>)
    ensures |r| == |holes|
  {
    seq(|holes|, i requires 0 <= i < |holes| => Arg(args, holes[i]))
  }

  /** Any comparison with NULL is unknown; EXISTS is never unknown. */
  function Eval(e: Engine, c: Cond, v: Option<Value>, args: seq<Value>): Truth {
    match c
    case IsNull => Of(v.None?)
    case IsNotNull => Of(v.Some?)
    case LessThan(h) => if v.None? then Unknown else Of(e.less(v.value, Arg(args, h)))
    case GreaterThan(h) => if v.None? then Unknown else Of(e.less(Arg(args, h), v.value))
    case NotIn(hs) => if v.None? then Unknown else Of(v.value !in Bound(args, hs))
    case NotMatching(hs, ignore) => if v.None? then Unknown else Of(!e.matches(v.value, Bound(args, hs), ignore))
    case NotExistsIn(reference) => Of(v.None? || v !in reference)
    case Or(l, r) => OrT(Eval(e, l, v, args), Eval(e, r, v, args))
    case And(l, r) => AndT(Eval(e, l, v, args), Eval(e, r, v, args))
  }

  function CountRows(e: Engine, c: Cond, cells: Cells, args: seq<Value>): nat {
    if cells == [] then 0
    else CountRows(e, c, cells[..|cells| - 1], args) + if Eval(e, c, cells[|cells| - 1], args).True? then 1 else 0
  }

  function Occurrences(cells: Cells, v: Value): nat {
    if cells == [] then 0 else Occurrences(cells[..|cells| - 1], v) + if cells[|cells| - 1] == Some(v) then 1 else 0
  }

  /** The groups of GROUP BY over the non-null cells. */
  function Groups(cells: Cells): (gs: seq<Value>)
    ensures forall v :: v in gs <==> Some(v) in cells
    ensures forall i, j | 0 <= i < j < |gs| :: gs[i] != gs[j]
  {
    if cells == [] then []
    else
      var gs, last := Groups(cells[..|cells| - 1]), cells[|cells| - 1];
      assert cells == cells[..|cells| - 1] + [last];
      if last.None? || last.value in gs then gs else gs + [last.value]
  }

  /** SUM(duplicate_count - 1) over the groups HAVING COUNT(*) > 1. */
  function Surplus(gs: seq<Value>, cells: Cells): nat {
    if gs == [] then 0
    else
      var n := Occurrences(cells, gs[|gs| - 1]);
      Surplus(gs[..|gs| - 1], cells) + if n > 1 then n - 1 else 0
  }

  function RunCount(e: Engine, q: Query, cells: Cells, args: seq<Value>): nat {
    match q
    case CountWhere(c) => CountRows(e, c, cells, args)
    case SumOfSurplus => Surplus(Groups(cells), cells)
  }

  // ---------------------------------------------------------------- what the counts mean

  /** A cell that breaks a row-wise rule. */
  predicate Breaks(e: Engine, rule: Rule, d: Dialect, v: Option<Value>) {
    match rule
    case NotNull => v.None?
    case Unique => false
    case Regex(p, f) =>
      v.Some? &&
      if d.PostgreSQL? then !e.matches(v.value, [Text(p)], IgnoresCase(f))
      else !e.matches(v.value, if f == "" then [Text(p)] else [Text(p), Text(f)], false)
    case Range(min, max) =>
      v.Some? && ((min.Some? && e.less(v.value, Num(min.value))) || (max.Some? && e.less(Num(max.value), v.value)))
    case Enum(values) => v.Some? && !(v.value.Text? && v.value.s in values)
    case Referential(reference) => v.Some? && v !in reference
  }

  function BreakingRows(e: Engine, rule: Rule, d: Dialect, cells: Cells): nat {
    if cells == [] then 0
    else BreakingRows(e, rule, d, cells[..|cells| - 1]) + if Breaks(e, rule, d, cells[|cells| - 1]) then 1 else 0
  }

  function NonNull(cells: Cells): nat {
    if cells == [] then 0 else NonNull(cells[..|cells| - 1]) + if cells[|cells| - 1].Some? then 1 else 0
  }

  lemma BoundInOrder(args: seq<Value>, holes: seq<nat>)
    requires InOrder(holes, args)
    ensures Bound(args, holes) == args
  {}

  lemma TextsHold(values: seq<string>, v: Value)
    ensures v in Texts(values) <==> v.Text? && v.s in values
  {
    if v.Text? && v.s in values {
      var i :| 0 <= i < |values| && values[i] == v.s;
      assert Texts(values)[i] == v;
    }
  }

  /** The condition is true of exactly the cells that break the rule. */
  lemma CondMeans(e: Engine, rule: Rule, d: Dialect, q: Query, args: seq<Value>, v: Option<Value>)
    requires Expresses(rule, d, q, args) && !rule.Unique?
    ensures q.CountWhere? && (Eval(e, q.cond, v, args).True? <==> Breaks(e, rule, d, v))
  {
    match rule
    case Regex(p, f) =>
      BoundInOrder([Text(p)], [1]);
      BoundInOrder([Text(p), Text(f)], [1, 2]);
    case Enum(values) =>
      BoundInOrder(args, q.cond.right.holes);
      if v.Some? {
        TextsHold(values, v.value);
      }
    case _ =>
  }

  lemma {:induction false} CountMeans(e: Engine, rule: Rule, d: Dialect, q: Query, args: seq<Value>, cells: Cells)
    requires Expresses(rule, d, q, args) && !rule.Unique?
    ensures q.CountWhere? && CountRows(e, q.cond, cells, args) == BreakingRows(e, rule, d, cells) <= |cells|
  {
    CondMeans(e, rule, d, q, args, None);
    if cells != [] {
      CountMeans(e, rule, d, q, args, cells[..|cells| - 1]);
      CondMeans(e, rule, d, q, args, cells[|cells| - 1]);
    }
  }

  function Total(gs: seq<Value>, cells: Cells): nat {
    if gs == [] then 0 else Total(gs[..|gs| - 1], cells) + Occurrences(cells, gs[|gs| - 1])
  }

  lemma {:induction false} TotalOneMore(gs: seq<Value>, cells: Cells, c: Option<Value>)
    requires forall i, j | 0 <= i < j < |gs| :: gs[i] != gs[j]
    ensures Total(gs, cells + [c]) == Total(gs, cells) + if c.Some? && c.value in gs then 1 else 0
  {
    if gs != [] {
      var init, last := gs[..|gs| - 1], gs[|gs| - 1];
      TotalOneMore(init, cells, c);
      assert gs == init + [last] && (cells + [c])[..|cells|] == cells;
    }
  }

  lemma {:induction false} OccurrencesOutside(cells: Cells, v: Value)
    ensures Occurrences(cells, v) == 0 <==> Some(v) !in cells
  {
    if cells != [] {
      OccurrencesOutside(cells[..|cells| - 1], v);
      assert cells == cells[..|cells| - 1] + [cells[|cells| - 1]];
    }
  }

  /** Each non-null cell is in exactly one group. */
  lemma {:induction false} GroupsCover(cells: Cells)
    ensures Total(Groups(cells), cells) == NonNull(cells)
  {
    if cells != [] {
      var init, c := cells[..|cells| - 1], cells[|cells| - 1];
      GroupsCover(init);
      assert cells == init + [c];
      TotalOneMore(Groups(init), init, c);
      if c.Some? && c.value !in Groups(init) {
        OccurrencesOutside(init, c.value);
        var gs := Groups(init);
        assert (gs + [c.value])[..|gs|] == gs;
        assert (init + [c])[..|init|] == init;
      }
    }
  }

  lemma {:induction false} SurplusIs(gs: seq<Value>, cells: Cells)
    requires forall g | g in gs :: Some(g) in cells
    ensures Surplus(gs, cells) + |gs| == Total(gs, cells)
  {
    if gs != [] {
      assert gs[|gs| - 1] in gs;
      OccurrencesOutside(cells, gs[|gs| - 1]);
      assert forall g | g in gs[..|gs| - 1] :: g in gs;
      SurplusIs(gs[..|gs| - 1], cells);
    }
  }

  lemma {:induction false} NonNullBound(cells: Cells)
    ensures NonNull(cells) <= |cells|
  {
    if cells != [] {
      NonNullBound(cells[..|cells| - 1]);
    }
  }

  /** The failed count of every rule type: the breaking rows, or for unique the non-null rows
      minus the distinct non-null values; never more than the total on one snapshot. */
  lemma FailedCount(e: Engine, rule: Rule, d: Dialect, q: Query, args: seq<Value>, cells: Cells)
    requires Expresses(rule, d, q, args)
    ensures RunCount(e, q, cells, args) <= |cells|
    ensures !rule.Unique? ==> RunCount(e, q, cells, args) == BreakingRows(e, rule, d, cells)
    ensures rule.Unique? ==> RunCount(e, q, cells, args) == NonNull(cells) - |Groups(cells)|
  {
    if rule.Unique? {
      GroupsCover(cells);
      SurplusIs(Groups(cells), cells);
      NonNullBound(cells);
    } else {
      CountMeans(e, rule, d, q, args, cells);
    }
  }

  /** How many rows of a column the sample shows for a value, before its limit. */
  function ShownRows(e: Engine, sample: Sample, cells: Cells, args: seq<Value>, v: Option<Value>): nat {
    match sample
    case RowsWhere(c) => if Eval(e, c, v, args).True? then multiset(cells)[v] else 0
    case Duplicates => if v.Some? && Occurrences(cells, v.value) > 1 then 1 else 0
  }

  /** The sample shows each cell that breaks the rule, as often as it stands in the column; for
      unique it shows each value that stands there more than once, once. */
  lemma SampleMeans(
    e: Engine, rule: Rule, d: Dialect, q: Query, args: seq<Value>, cells: Cells, v: Option<Value>)
    requires Expresses(rule, d, q, args)
    ensures !rule.Unique? ==>
      ShownRows(e, SampleOf(q), cells, args, v) == if Breaks(e, rule, d, v) then multiset(cells)[v] else 0
    ensures rule.Unique? ==>
      ShownRows(e, SampleOf(q), cells, args, v) == if v.Some? && Occurrences(cells, v.value) > 1 then 1 else 0
  {
    if !rule.Unique? {
      CondMeans(e, rule, d, q, args, v);
    }
    hide Eval, Breaks;
  }

  // ---------------------------------------------------------------- the result

  /** math.Round for a non-negative number. */
  function Round(x: real): int
    requires x >= 0.0
  {
    (x + 0.5).Floor
  }

  datatype Status = Passed | Failed
  datatype Result = Result(status: Status, totalRows: nat, failedRows: nat, passRate: real)

  function Exact(total: nat, failed: nat): real
    requires total > 0
  {
    (total - failed) as real / total as real * 100.0
  }

  method ExecuteRule(total: nat, failed: nat) returns (r: Result)
    requires failed <= total
    ensures r.totalRows == total && r.failedRows == failed
    ensures r.status.Failed? <==> failed > 0
    ensures 0.0 <= r.passRate <= 100.0
    ensures total > 0 ==> Exact(total, failed) - 0.005 < r.passRate <= Exact(total, failed) + 0.005
    ensures r.passRate == 100.0 <==> total == 0 || 20_000 * failed <= total
  {
    var passRate, status := 100.0, Passed;
    if total > 0 {
      ExactBounds(total, failed);
      passRate := Exact(total, failed);
      RoundBounds(passRate * 100.0);
      passRate := Round(passRate * 100.0) as real / 100.0;
    }
    if failed > 0 {
      status := Failed;
    }
    r := Result(status, total, failed, passRate);
  }

  /** The exact rate is the passed share of the rows, in percent. */
  lemma ExactTimes(total: nat, failed: nat)
    requires total > 0 && failed <= total
    ensures Exact(total, failed) * total as real == 100.0 * (total - failed) as real
  {
    var t, p := total as real, (total - failed) as real;
    DivMul(p, t);
    Rescale(p / t, t, p);
  }

  lemma Rescale(share: real, t: real, p: real)
    requires share * t == p
    ensures share * 100.0 * t == 100.0 * p
  {}

  /** A rule from its definition to its result, on one snapshot of its column. */
  method RunRule(e: Engine, rule: Rule, hasColumn: bool, d: Dialect, cells: Cells) returns (r: Option<Result>)
    ensures r.None? <==>
      !hasColumn || (rule.Range? && rule.min.None? && rule.max.None?) || (rule.Enum? && rule.values == [])
    ensures r.Some? ==> r.value.totalRows == |cells| && r.value.failedRows <= |cells|
    ensures r.Some? ==>
      r.value.failedRows == if rule.Unique? then NonNull(cells) - |Groups(cells)| else BreakingRows(e, rule, d, cells)
    ensures r.Some? ==> (r.value.status.Failed? <==> r.value.failedRows > 0)
    ensures r.Some? ==> 0.0 <= r.value.passRate <= 100.0
    ensures r.Some? && cells != [] ==>
      var exact := Exact(|cells|, r.value.failedRows); exact - 0.005 < r.value.passRate <= exact + 0.005
  {
    hide Expresses, RunCount, BreakingRows, Groups, NonNull, Exact, InOrder, SampleOf;
    var queries := BuildRuleQueries(rule, hasColumn, d);
    if queries.None? {
      return None;
    }
    var q := queries.value;
    FailedCount(e, rule, d, q.failed, q.failedArgs, cells);
    var result := ExecuteRule(|cells|, RunCount(e, q.failed, cells, q.failedArgs));
    r := Some(result);
  }

  lemma ExactBounds(total: nat, failed: nat)
    requires total > 0 && failed <= total
    ensures 0.0 <= Exact(total, failed) <= 100.0
    ensures Exact(total, failed) * 100.0 + 0.5 >= 10_000.0 <==> 20_000 * failed <= total
  {
    var t, f := total as real, failed as real;
    var share := f / t;
    assert (total - failed) as real == t - f;
    assert (1.0 - share) * t == t - f;
    DivMul(t - f, t);
    Cancel((t - f) / t, 1.0 - share, t);
    ShareBounds(t, f, share);
  }

  lemma DivMul(x: real, t: real)
    requires t > 0.0
    ensures x / t * t == x
  {}

  lemma Cancel(a: real, b: real, t: real)
    requires t > 0.0 && a * t == b * t
    ensures a == b
  {
    assert (a - b) * t == 0.0;
  }

  lemma ShareBounds(t: real, f: real, share: real)
    requires t > 0.0 && 0.0 <= f <= t && share * t == f
    ensures 0.0 <= share <= 1.0
    ensures share * 20_000.0 <= 1.0 <==> 20_000.0 * f <= t
  {
    assert share * 20_000.0 * t == 20_000.0 * f;
    if share * 20_000.0 <= 1.0 { assert share * 20_000.0 * t <= t; }
    if share * 20_000.0 > 1.0 { assert share * 20_000.0 * t > t; }
  }

  lemma RoundBounds(x: real)
    requires 0.0 <= x <= 10_000.0
    ensures 0 <= Round(x) <= 10_000
    ensures x - 0.5 < Round(x) as real <= x + 0.5
    ensures Round(x) == 10_000 <==> x + 0.5 >= 10_000.0
  {}
}
