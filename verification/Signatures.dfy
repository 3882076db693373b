/** What a column signature tells: which differences between a stored and a scanned column show in
    it, and what the printed confidence says. */
module Signatures {
  import opened Options
  import opened Catalog

  // ---------------------------------------------------------------- the printed confidence

  function DigitValue(c: char): int { c as int - '0' as int }

  /** The number a string of digits stands for. */
  function Value(s: string): int {
    if s == "" then 0 else 10 * Value(s[..|s| - 1]) + DigitValue(s[|s| - 1])
  }

  lemma {:induction false} DigitsValue(n: nat)
    ensures Value(Digits(n)) == n && forall c | c in Digits(n) :: '0' <= c <= '9'
  {
    var last := ('0' as int + n % 10) as char;
    if n < 10 {
      assert Digits(n) == [last] && [last][..0] == "";
    } else {
      DigitsValue(n / 10);
      assert Digits(n) == Digits(n / 10) + [last];
      assert (Digits(n / 10) + [last])[..|Digits(n / 10)|] == Digits(n / 10);
    }
  }

  lemma {:induction false} ZeroInFront(s: string)
    ensures Value("0" + s) == Value(s)
  {
    if s == "" {
      assert "0" + s == "0" && "0"[..0] == "";
    } else {
      ZeroInFront(s[..|s| - 1]);
      assert ("0" + s)[..|s|] == "0" + s[..|s| - 1];
    }
  }

  lemma {:induction false} PadValue(s: string, width: nat)
    ensures Value(PadLeft(s, width)) == Value(s)
    ensures |PadLeft(s, width)| == if |s| >= width then |s| else width
    decreases width - |s|
  {
    if |s| < width {
      ZeroInFront(s);
      PadValue("0" + s, width);
    }
  }

  lemma {:induction false} FewDigits(n: nat, w: nat, bound: nat)
    requires w >= 1 && bound == Power(w) && n < bound
    ensures |Digits(n)| <= w
  {
    if n >= 10 {
      FewDigits(n / 10, w - 1, bound / 10);
    }
  }

  function Power(w: nat): nat { if w == 0 then 1 else 10 * Power(w - 1) }

  /** Reads a decimal with six digits after the point, in millionths. */
  function ReadSix(s: string): int {
    if s != "" && s[0] == '-' then -ReadSix(s[1..])
    else if |s| < 7 then 0
    else Value(s[..|s| - 7]) * 1000000 + Value(s[|s| - 6..])
  }

  function Decimal(millionths: nat): string {
    Digits(millionths / 1000000) + "." + PadLeft(Digits(millionths % 1000000), 6)
  }

  lemma DecimalReadsBack(n: nat)
    ensures ReadSix(Decimal(n)) == n && Decimal(n) != "" && Decimal(n)[0] != '-'
  {
    var whole, part := Digits(n / 1000000), PadLeft(Digits(n % 1000000), 6);
    DigitsValue(n / 1000000);
    DigitsValue(n % 1000000);
    assert Power(3) == 1000 && Power(6) == 1000000;
    FewDigits(n % 1000000, 6, 1000000);
    PadValue(Digits(n % 1000000), 6);
    assert whole[0] in whole;
    hide Digits, PadLeft, Value, Power;
    Halves(whole, part);
  }

  lemma Halves(whole: string, part: string)
    requires whole != "" && whole[0] != '-' && |part| == 6
    ensures ReadSix(whole + "." + part) == Value(whole) * 1000000 + Value(part)
  {
    hide Value;
    var t := whole + "." + part;
    assert t[..|t| - 7] == whole && t[|t| - 6..] == part && t[0] == whole[0];
  }

  lemma Negated(s: string)
    ensures ReadSix("-" + s) == -ReadSix(s)
  {
    hide Value;
    assert ("-" + s)[1..] == s;
  }

  lemma RoundedNear(x: real)
    ensures -0.5 <= RoundHalfEven(x) as real - x <= 0.5
    ensures -0.5 == RoundHalfEven(x) as real - x || RoundHalfEven(x) as real - x == 0.5 ==> RoundHalfEven(x) % 2 == 0
  {}

  /** The printed confidence reads back as the confidence in millionths, to the nearest. */
  lemma SixDigitsReadsBack(x: real)
    ensures ReadSix(SixDigits(x)) == RoundHalfEven(x * 1000000.0)
    ensures -0.5 <= ReadSix(SixDigits(x)) as real - x * 1000000.0 <= 0.5
  {
    hide RoundHalfEven, ReadSix, Digits, PadLeft;
    var micros := RoundHalfEven(x * 1000000.0);
    RoundedNear(x * 1000000.0);
    if micros < 0 {
      DecimalReadsBack(-micros);
      Negated(Decimal(-micros));
      assert SixDigits(x) == "-" + Digits(-micros / 1000000) + "." + PadLeft(Digits(-micros % 1000000), 6);
      Regroup("-", Digits(-micros / 1000000), ".", PadLeft(Digits(-micros % 1000000), 6));
    } else {
      DecimalReadsBack(micros);
      Regroup("", Digits(micros / 1000000), ".", PadLeft(Digits(micros % 1000000), 6));
      assert "" + Decimal(micros) == Decimal(micros);
    }
  }

  lemma Regroup(a: string, b: string, c: string, d: string)
    ensures a + b + c + d == a + (b + c + d)
  {}

  /** Two confidences print alike exactly when they agree to the millionth. */
  lemma SixDigitsAgree(x: real, y: real)
    ensures SixDigits(x) == SixDigits(y) <==> RoundHalfEven(x * 1000000.0) == RoundHalfEven(y * 1000000.0)
  {
    SixDigitsReadsBack(x);
    SixDigitsReadsBack(y);
    hide RoundHalfEven, Digits, PadLeft, ReadSix;
  }

  /** What a table keeps of a confidence: all of it, or the nearest hundredth. */
  lemma StoredConfidenceIs(b: Backend, c: real)
    ensures b.SQLite? ==> StoredConfidence(b, c) == c
    ensures b.Postgres? ==> -0.005 <= StoredConfidence(b, c) - c <= 0.005
    ensures b.Postgres? ==> StoredConfidence(b, c) * 100.0 == (StoredConfidence(b, c) * 100.0).Floor as real
  {
    var n := (c * 100.0 + 0.5).Floor;
    assert (n as real / 100.0) * 100.0 == n as real;
  }

  // ---------------------------------------------------------------- which differences show

  datatype Field =
    DataType | FullType | Nullable | PrimaryKey | Unique | Default | Parent | Description | Confidence

  /** A missing text and an empty one are the same here. */
  predicate SameText(x: Option<string>, y: Option<string>) {
    x == y || (x in {None, Some("")} && y in {None, Some("")})
  }

  /** A stored and a scanned column agree in one respect; confidences, to the millionth, where a
      scanned one that is not positive counts as one. */
  predicate Agrees(row: ColumnRow, col: ScannedColumn, f: Field) {
    match f
    case DataType => row.dataType == col.dataType
    case FullType => row.fullDataType == col.fullDataType
    case Nullable => row.isNullable == col.isNullable
    case PrimaryKey => row.isPrimaryKey == col.isPrimaryKey
    case Unique => row.isUnique == col.isUnique
    case Default => SameText(row.defaultValue, col.defaultValue)
    case Parent => SameText(row.parentColumnPath, col.parentColumnPath)
    case Description => SameText(row.description, col.description)
    case Confidence =>
      var c := if col.confidence <= 0.0 then 1.0 else col.confidence;
      RoundHalfEven(row.confidence * 1000000.0) == RoundHalfEven(c * 1000000.0)
  }

  lemma SameLead(p: string, s: string, t: string)
    ensures p + s == p + t <==> s == t
  {
    assert (p + s)[|p|..] == s && (p + t)[|p|..] == t;
  }

  lemma SameTail(s: string, t: string, r: string)
    ensures s + r == t + r <==> s == t
  {
    if s + r == t + r {
      assert |s| == |t| && s == (s + r)[..|s|] && t == (t + r)[..|t|];
    }
  }

  type Fields = seq<(string, string)>

  predicate SameLabels(ps: Fields, qs: Fields) {
    |ps| == |qs| && forall k | 0 <= k < |ps| :: ps[k].0 == qs[k].0
  }

  /** Lists of fields that differ in one value print differently. */
  lemma {:induction false} OneDifferencePrints(ps: Fields, qs: Fields, i: nat)
    requires SameLabels(ps, qs) && i < |ps| && ps[i].1 != qs[i].1
    requires forall k | 0 <= k < |ps| && k != i :: ps[k].1 == qs[k].1
    ensures Printed(ps) != Printed(qs)
  {
    SameLead(ps[0].0, ps[0].1 + Printed(ps[1..]), qs[0].1 + Printed(qs[1..]));
    if i == 0 {
      assert ps[1..] == qs[1..];
      SameTail(ps[0].1, qs[0].1, Printed(ps[1..]));
    } else {
      OneDifferencePrints(ps[1..], qs[1..], i - 1);
      SameLead(ps[0].1, Printed(ps[1..]), Printed(qs[1..]));
    }
  }

  /** The values a stored and a scanned column print, by field. */
  function StoredText(row: ColumnRow, f: Field): string {
    match f
    case DataType => row.dataType
    case FullType => row.fullDataType
    case Nullable => BoolText(row.isNullable)
    case PrimaryKey => BoolText(row.isPrimaryKey)
    case Unique => BoolText(row.isUnique)
    case Default => StringValue(row.defaultValue)
    case Parent => StringValue(row.parentColumnPath)
    case Description => StringValue(row.description)
    case Confidence => SixDigits(row.confidence)
  }

  function ScannedText(col: ScannedColumn, f: Field): string {
    match f
    case DataType => col.dataType
    case FullType => col.fullDataType
    case Nullable => BoolText(col.isNullable)
    case PrimaryKey => BoolText(col.isPrimaryKey)
    case Unique => BoolText(col.isUnique)
    case Default => StringValue(col.defaultValue)
    case Parent => StringValue(col.parentColumnPath)
    case Description => StringValue(col.description)
    case Confidence => SixDigits(NormalizeConfidence(col.confidence))
  }

  lemma TextsAgree(row: ColumnRow, col: ScannedColumn, f: Field)
    ensures StoredText(row, f) == ScannedText(col, f) <==> Agrees(row, col, f)
  {
    if f == Confidence {
      SixDigitsAgree(row.confidence, NormalizeConfidence(col.confidence));
    }
    hide SixDigits, RoundHalfEven;
  }

  const ORDER: seq<Field> :=
    [DataType, FullType, Nullable, PrimaryKey, Unique, Default, Parent, Description, Confidence]
  const LABELS: seq<string> :=
    ["type=", " full=", " nullable=", " pk=", " unique=", " default=", " parent=", " desc=", " confidence="]

  /** The fields of a signature: one text per label. */
  function Labelled(texts: Field -> string): Fields {
    seq(9, k requires 0 <= k < 9 => (LABELS[k], texts(ORDER[k])))
  }

  lemma SignaturesAre(row: ColumnRow, col: ScannedColumn)
    ensures StoredSignature(row) == Printed(Labelled(f => StoredText(row, f)))
    ensures ScannedSignature(col) == Printed(Labelled(f => ScannedText(col, f)))
  {
    hide Printed, SixDigits;
    LabelledIs(f => StoredText(row, f));
    LabelledIs(f => ScannedText(col, f));
    hide Labelled;
  }

  lemma LabelledIs(t: Field -> string)
    ensures Labelled(t) == [
      ("type=", t(DataType)), (" full=", t(FullType)), (" nullable=", t(Nullable)), (" pk=", t(PrimaryKey)),
      (" unique=", t(Unique)), (" default=", t(Default)), (" parent=", t(Parent)), (" desc=", t(Description)),
      (" confidence=", t(Confidence))]
  {}

  lemma PlaceOf(f: Field) returns (i: nat)
    ensures i < 9 && ORDER[i] == f
    ensures forall k | 0 <= k < 9 && k != i :: ORDER[k] != f
  {
    i := match f
      case DataType => 0
      case FullType => 1
      case Nullable => 2
      case PrimaryKey => 3
      case Unique => 4
      case Default => 5
      case Parent => 6
      case Description => 7
      case Confidence => 8;
  }

  ghost predicate DifferOnlyIn(row: ColumnRow, col: ScannedColumn, f: Field) {
    !Agrees(row, col, f) && forall g | g != f :: Agrees(row, col, g)
  }

  /** Any single difference shows in the signature. */
  lemma OneDifferenceShows(row: ColumnRow, col: ScannedColumn, f: Field)
    requires DifferOnlyIn(row, col, f)
    ensures StoredSignature(row) != ScannedSignature(col)
  {
    hide StoredText, ScannedText, Printed, Agrees, StoredSignature, ScannedSignature;
    SignaturesAre(row, col);
    var ps, qs := Labelled(g => StoredText(row, g)), Labelled(g => ScannedText(col, g));
    var i := PlaceOf(f);
    forall k | 0 <= k < 9 ensures ps[k].1 == qs[k].1 <==> k != i {
      TextsAgree(row, col, ORDER[k]);
    }
    hide Labelled;
    OneDifferencePrints(ps, qs, i);
  }

  /** Columns that agree in every respect have the same signature. */
  lemma AgreementIsSilent(row: ColumnRow, col: ScannedColumn)
    requires forall f :: Agrees(row, col, f)
    ensures StoredSignature(row) == ScannedSignature(col)
  {
    hide StoredText, ScannedText, Printed, Agrees, StoredSignature, ScannedSignature;
    SignaturesAre(row, col);
    forall f ensures StoredText(row, f) == ScannedText(col, f) {
      TextsAgree(row, col, f);
    }
    assert Labelled(g => StoredText(row, g)) == Labelled(g => ScannedText(col, g));
  }

  /** With all else equal, signatures are equal exactly when the confidences print alike. */
  lemma ConfidenceDecides(
    a: string, b: string, n: bool, p: bool, u: bool, d: Option<string>, q: Option<string>, t: Option<string>,
    x: real, y: real)
    ensures Signature(a, b, n, p, u, d, q, t, x) == Signature(a, b, n, p, u, d, q, t, y) <==>
            SixDigits(x) == SixDigits(y)
  {
    hide Printed, SixDigits;
    var ps := [
      ("type=", a), (" full=", b), (" nullable=", BoolText(n)), (" pk=", BoolText(p)), (" unique=", BoolText(u)),
      (" default=", StringValue(d)), (" parent=", StringValue(q)), (" desc=", StringValue(t)),
      (" confidence=", SixDigits(x))];
    var qs := [
      ("type=", a), (" full=", b), (" nullable=", BoolText(n)), (" pk=", BoolText(p)), (" unique=", BoolText(u)),
      (" default=", StringValue(d)), (" parent=", StringValue(q)), (" desc=", StringValue(t)),
      (" confidence=", SixDigits(y))];
    assert Signature(a, b, n, p, u, d, q, t, x) == Printed(ps);
    assert Signature(a, b, n, p, u, d, q, t, y) == Printed(qs);
    if SixDigits(x) != SixDigits(y) {
      OneDifferencePrints(ps, qs, 8);
    } else {
      assert ps == qs;
    }
  }

  // ---------------------------------------------------------------- the last field

  predicate Plain(s: string) { '=' !in s }

  /** A text before a last label and a plain text is fixed by the whole. */
  lemma LastText(a: string, b: string, l: string, s: string, t: string)
    requires Plain(s) && Plain(t) && l != "" && l[|l| - 1] == '=' && a + (l + s) == b + (l + t)
    ensures a == b && s == t
  {
    var n := |l| - 1;
    var x, y := a + (l + s), b + (l + t);
    assert x[|a| + n] == '=' && y[|b| + n] == '=';
    forall k | |a| + n < k < |x| ensures x[k] != '=' { assert x[k] == s[k - |a| - n - 1] && s[k - |a| - n - 1] in s; }
    forall k | |b| + n < k < |y| ensures y[k] != '=' { assert y[k] == t[k - |b| - n - 1] && t[k - |b| - n - 1] in t; }
    assert |a| == |b|;
    assert a == x[..|a|] && b == y[..|b|] && l + s == x[|a|..] && l + t == y[|b|..];
    SameLead(l, s, t);
  }

  lemma {:induction false} PadPlain(s: string, w: nat)
    requires Plain(s)
    ensures Plain(PadLeft(s, w))
    decreases w - |s|
  {
    if |s| < w {
      PadPlain("0" + s, w);
    }
  }

  lemma SixPlain(x: real)
    ensures Plain(SixDigits(x))
  {
    hide RoundHalfEven;
    var micros := RoundHalfEven(x * 1000000.0);
    var abs := if micros < 0 then -micros else micros;
    DigitsValue(abs / 1000000);
    DigitsValue(abs % 1000000);
    hide Digits;
    PadPlain(Digits(abs % 1000000), 6);
  }
}
