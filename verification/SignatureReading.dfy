/** When a signature tells all the fields it was printed from. */
module SignatureReading {
  import opened Options
  import opened Catalog
  import opened Weaving
  import opened Signatures

  // ---------------------------------------------------------------- the separators of a signature

  function Middle(isNullable: bool, isPrimaryKey: bool, isUnique: bool): string {
    " nullable=" + (BoolText(isNullable) + (" pk=" + (BoolText(isPrimaryKey) + (" unique=" +
      (BoolText(isUnique) + " default=")))))
  }

  const MIDDLES: set<string> := set n: bool, p: bool, u: bool :: Middle(n, p, u)

  const KINDS: Kinds := [{" full="}, MIDDLES, {" parent="}, {" desc="}]

  /** The character `second` never follows a blank in the text. */
  predicate Avoids(s: string, second: char) {
    s != "" && s[|s| - 1] != ' ' && forall k | 0 <= k < |s| - 1 && s[k] == ' ' :: s[k + 1] != second
  }

  lemma AvoidsBoth(s: string, t: string, second: char)
    requires Avoids(s, second) && Avoids(t, second)
    ensures Avoids(s + t, second)
  {}

  lemma WordsAvoid(b: bool)
    ensures Avoids("nullable=", 'n') && Avoids(" pk=", 'n') && Avoids(" unique=", 'n') && Avoids(" default=", 'n')
    ensures Avoids(BoolText(b), 'n')
  {}

  lemma MiddleAvoids(n: bool, p: bool, u: bool)
    ensures |Middle(n, p, u)| >= 2 && Middle(n, p, u)[0] == ' ' && Middle(n, p, u)[1] == 'n'
    ensures Avoids(Middle(n, p, u)[1..], 'n')
  {
    WordsAvoid(n);
    WordsAvoid(p);
    WordsAvoid(u);
    hide Avoids, BoolText;
    var s6 := BoolText(u) + " default=";
    var s5 := " unique=" + s6;
    var s4 := BoolText(p) + s5;
    var s3 := " pk=" + s4;
    var s2 := BoolText(n) + s3;
    AvoidsBoth(BoolText(u), " default=", 'n');
    AvoidsBoth(" unique=", s6, 'n');
    AvoidsBoth(BoolText(p), s5, 'n');
    AvoidsBoth(" pk=", s4, 'n');
    AvoidsBoth(BoolText(n), s3, 'n');
    AvoidsBoth("nullable=", s2, 'n');
    FirstTwo(s2);
  }

  lemma FirstTwo(s: string)
    ensures " nullable=" + s == " " + ("nullable=" + s) && (" nullable=" + s)[1..] == "nullable=" + s
    ensures (" nullable=" + s)[0] == ' ' && (" nullable=" + s)[1] == 'n'
  {}

  lemma BoolFirst(a: bool, b: bool, s: string, t: string)
    requires BoolText(a) + s == BoolText(b) + t
    ensures a == b && s == t
  {
    assert (BoolText(a) + s)[0] == BoolText(a)[0] && (BoolText(b) + t)[0] == BoolText(b)[0];
    assert a == b;
    SameLead(BoolText(a), s, t);
  }

  lemma Grouped(l: string, b: string, s: string, r: string)
    ensures (l + (b + s)) + r == l + (b + (s + r))
  {}

  lemma MiddlePrefix(n: bool, p: bool, u: bool, n1: bool, p1: bool, u1: bool, r: string)
    requires Middle(n, p, u) + r == Middle(n1, p1, u1)
    ensures n == n1 && p == p1 && u == u1
  {
    hide BoolText;
    var u2, u3 := " unique=" + (BoolText(u) + " default="), " unique=" + (BoolText(u1) + " default=");
    var p2, p3 := " pk=" + (BoolText(p) + u2), " pk=" + (BoolText(p1) + u3);
    Grouped(" nullable=", BoolText(n), p2, r);
    SameLead(" nullable=", BoolText(n) + (p2 + r), BoolText(n1) + p3);
    BoolFirst(n, n1, p2 + r, p3);
    Grouped(" pk=", BoolText(p), u2, r);
    SameLead(" pk=", BoolText(p) + (u2 + r), BoolText(p1) + u3);
    BoolFirst(p, p1, u2 + r, u3);
    Grouped(" unique=", BoolText(u), " default=", r);
    SameLead(" unique=", BoolText(u) + (" default=" + r), BoolText(u1) + " default=");
    BoolFirst(u, u1, " default=" + r, " default=");
  }

  /** The shape of a separator of the middle kind. */
  ghost predicate Begins(m: string) {
    |m| >= 2 && m[0] == ' ' && m[1] == 'n' && Avoids(m[1..], 'n')
  }

  lemma BeginsMeans(m: string)
    requires Begins(m)
    ensures m[|m| - 1] != ' ' && forall k | 0 < k < |m| - 1 && m[k] == ' ' :: m[k + 1] != 'n'
  {
    assert m[1..][|m| - 2] == m[|m| - 1];
    forall k | 0 < k < |m| - 1 && m[k] == ' ' ensures m[k + 1] != 'n' {
      assert m[1..][k - 1] == m[k] && m[1..][k] == m[k + 1];
    }
  }

  lemma MiddleBegins(m: string)
    requires m in MIDDLES
    ensures Begins(m)
  {
    var n, p, u :| m == Middle(n, p, u);
    MiddleAvoids(n, p, u);
    hide Middle, Avoids;
  }

  lemma NoneBegins(m: string, o: string)
    requires m in MIDDLES && o in MIDDLES && m <= o
    ensures m == o
  {
    hide Middle;
    var n, p, u :| m == Middle(n, p, u);
    var n1, p1, u1 :| o == Middle(n1, p1, u1);
    assert m + o[|m|..] == o;
    MiddlePrefix(n, p, u, n1, p1, u1, o[|m|..]);
  }

  lemma MiddlesAreKind()
    ensures Kind(MIDDLES, 'n')
  {
    forall m | m in MIDDLES ensures Begins(m) { MiddleBegins(m); }
    forall m | m in MIDDLES
      ensures m[|m| - 1] != ' ' && forall k | 0 < k < |m| - 1 && m[k] == ' ' :: m[k + 1] != 'n' { BeginsMeans(m); }
    forall m, o | m in MIDDLES && o in MIDDLES && m <= o ensures m == o { NoneBegins(m, o); }
    hide MIDDLES, Avoids;
  }

  lemma OneWord(l: string)
    requires l in {" full=", " parent=", " desc="}
    ensures IsKind({l})
  {
    assert Kind({l}, l[1]);
  }

  lemma KindsAre()
    ensures AllKinds(KINDS)
  {
    MiddlesAreKind();
    OneWord(" full=");
    OneWord(" parent=");
    OneWord(" desc=");
    hide Kind;
    assert IsKind(MIDDLES);
  }

  // ---------------------------------------------------------------- a signature as a weave

  function RowTexts(row: ColumnRow): seq<string> {
    [row.dataType, row.fullDataType, StringValue(row.defaultValue), StringValue(row.parentColumnPath),
     StringValue(row.description)]
  }

  function ScanTexts(col: ScannedColumn): seq<string> {
    [col.dataType, col.fullDataType, StringValue(col.defaultValue), StringValue(col.parentColumnPath),
     StringValue(col.description)]
  }

  function Between(isNullable: bool, isPrimaryKey: bool, isUnique: bool): seq<string> {
    [" full=", Middle(isNullable, isPrimaryKey, isUnique), " parent=", " desc="]
  }

  lemma BetweenIsKinds(n: bool, p: bool, u: bool)
    ensures OfKinds(KINDS, Between(n, p, u))
  {}

  lemma FiveWoven(a: string, f: string, d: string, p: string, s: string, m: string)
    ensures Woven([a, f, d, p, s], [" full=", m, " parent=", " desc="]) ==
            a + (" full=" + (f + (m + (d + (" parent=" + (p + (" desc=" + s)))))))
  {
    assert [a, f, d, p, s][1..] == [f, d, p, s] && [f, d, p, s][1..] == [d, p, s];
    assert [d, p, s][1..] == [p, s] && [p, s][1..] == [s];
    assert [" full=", m, " parent=", " desc="][1..] == [m, " parent=", " desc="];
    assert [m, " parent=", " desc="][1..] == [" parent=", " desc="] && [" parent=", " desc="][1..] == [" desc="];
    assert [" desc="][1..] == [];
    WovenMore([a, f, d, p, s], [" full=", m, " parent=", " desc="]);
    WovenMore([f, d, p, s], [m, " parent=", " desc="]);
    WovenMore([d, p, s], [" parent=", " desc="]);
    WovenMore([p, s], [" desc="]);
    WovenOne([s], []);
  }

  lemma NinePrinted(t: Field -> string)
    ensures Printed(Labelled(t)) ==
      "type=" + (t(DataType) + (" full=" + (t(FullType) + (" nullable=" + (t(Nullable) + (" pk=" + (t(PrimaryKey) +
      (" unique=" + (t(Unique) + (" default=" + (t(Default) + (" parent=" + (t(Parent) + (" desc=" + (t(Description) +
      (" confidence=" + t(Confidence)))))))))))))))))
  {
    var ps := Labelled(t);
    LabelledIs(t);
    hide Printed, Labelled;
    forall k | 0 <= k < 9 ensures Printed(ps[k..]) == ps[k].0 + (ps[k].1 + Printed(ps[k + 1..])) {
      PrintedMore(ps[k..]);
      assert ps[k..][1..] == ps[k + 1..];
    }
    assert ps[0..] == ps && ps[9..] == [];
    PrintedNone();
    assert " confidence=" + (t(Confidence) + "") == " confidence=" + t(Confidence);
    var p8 := Printed(ps[8..]);
    var p7 := Printed(ps[7..]);
    var p6 := Printed(ps[6..]);
    var p5 := Printed(ps[5..]);
    var p4 := Printed(ps[4..]);
    var p3 := Printed(ps[3..]);
    var p2 := Printed(ps[2..]);
    var p1 := Printed(ps[1..]);
    assert p8 == " confidence=" + t(Confidence);
    assert p7 == " desc=" + (t(Description) + p8);
    assert p6 == " parent=" + (t(Parent) + p7);
    assert p5 == " default=" + (t(Default) + p6);
    assert p4 == " unique=" + (t(Unique) + p5);
    assert p3 == " pk=" + (t(PrimaryKey) + p4);
    assert p2 == " nullable=" + (t(Nullable) + p3);
    assert p1 == " full=" + (t(FullType) + p2);
  }

  lemma PrintedMore(ps: Fields)
    requires ps != []
    ensures Printed(ps) == ps[0].0 + (ps[0].1 + Printed(ps[1..]))
  {}

  lemma PrintedNone()
    ensures Printed([]) == ""
  {}

  lemma Assoc(x: string, y: string, r: string)
    ensures (x + y) + r == x + (y + r)
  {}

  /** A middle separator spelled out before a text. */
  lemma MiddleThen(n: bool, p: bool, u: bool, r: string)
    ensures Middle(n, p, u) + r == " nullable=" + (BoolText(n) + (" pk=" + (BoolText(p) + (" unique=" +
              (BoolText(u) + (" default=" + r))))))
  {
    hide BoolText;
    var m5 := BoolText(u) + " default=";
    var m4 := " unique=" + m5;
    var m3 := BoolText(p) + m4;
    var m2 := " pk=" + m3;
    var m1 := BoolText(n) + m2;
    Assoc(" nullable=", m1, r);
    Assoc(BoolText(n), m2, r);
    Assoc(" pk=", m3, r);
    Assoc(BoolText(p), m4, r);
    Assoc(" unique=", m5, r);
    Assoc(BoolText(u), " default=", r);
  }

  lemma FiveThen(a: string, f: string, d: string, p: string, s: string, m: string, r: string)
    ensures Woven([a, f, d, p, s], [" full=", m, " parent=", " desc="]) + r ==
            a + (" full=" + (f + (m + (d + (" parent=" + (p + (" desc=" + (s + r))))))))
  {
    FiveWoven(a, f, d, p, s, m);
    hide Woven;
    var w8 := " desc=" + s;
    var w7 := p + w8;
    var w6 := " parent=" + w7;
    var w5 := d + w6;
    var w4 := m + w5;
    var w3 := f + w4;
    var w2 := " full=" + w3;
    Assoc(a, w2, r);
    Assoc(" full=", w3, r);
    Assoc(f, w4, r);
    Assoc(m, w5, r);
    Assoc(d, w6, r);
    Assoc(" parent=", w7, r);
    Assoc(p, w8, r);
    Assoc(" desc=", s, r);
  }

  function RowWoven(row: ColumnRow): string {
    Woven(RowTexts(row), Between(row.isNullable, row.isPrimaryKey, row.isUnique))
  }

  function ScanWoven(col: ScannedColumn): string {
    Woven(ScanTexts(col), Between(col.isNullable, col.isPrimaryKey, col.isUnique))
  }

  lemma RowForm(row: ColumnRow)
    ensures StoredSignature(row) ==
            "type=" + (RowWoven(row) + (" confidence=" + SixDigits(row.confidence)))
  {
    RowPrinted(row);
    hide StoredSignature, Woven, Middle, SixDigits, StringValue, BoolText;
    var r := " confidence=" + SixDigits(row.confidence);
    FiveThen(row.dataType, row.fullDataType, StringValue(row.defaultValue), StringValue(row.parentColumnPath),
             StringValue(row.description), Middle(row.isNullable, row.isPrimaryKey, row.isUnique), r);
    MiddleThen(row.isNullable, row.isPrimaryKey, row.isUnique, StringValue(row.defaultValue) + (" parent=" +
      (StringValue(row.parentColumnPath) + (" desc=" + (StringValue(row.description) + r)))));
  }

  lemma RowPrinted(row: ColumnRow)
    ensures StoredSignature(row) ==
      "type=" + (row.dataType + (" full=" + (row.fullDataType + (" nullable=" + (BoolText(row.isNullable) + (" pk=" +
      (BoolText(row.isPrimaryKey) + (" unique=" + (BoolText(row.isUnique) + (" default=" +
      (StringValue(row.defaultValue) + (" parent=" + (StringValue(row.parentColumnPath) + (" desc=" +
      (StringValue(row.description) + (" confidence=" + SixDigits(row.confidence)))))))))))))))))
  {
    hide StoredSignature, Printed, Labelled, SixDigits, StringValue, BoolText;
    SignaturesAre(row, ScannedColumn("", "", "", false, None, false, false, 1, None, None, 1.0));
    NinePrinted(f => StoredText(row, f));
  }

  /** A signature in print, with its flags in words. */
  lemma SignatureInPrint(row: ColumnRow, nullable: string, key: string, unique: string)
    requires nullable == (if row.isNullable then "true" else "false")
    requires key == (if row.isPrimaryKey then "true" else "false")
    requires unique == (if row.isUnique then "true" else "false")
    ensures StoredSignature(row) ==
      "type=" + (row.dataType + (" full=" + (row.fullDataType + (" nullable=" + (nullable + (" pk=" +
      (key + (" unique=" + (unique + (" default=" +
      (StringValue(row.defaultValue) + (" parent=" + (StringValue(row.parentColumnPath) + (" desc=" +
      (StringValue(row.description) + (" confidence=" + SixDigits(row.confidence)))))))))))))))))
  {
    assert BoolText(row.isNullable) == nullable && BoolText(row.isPrimaryKey) == key;
    assert BoolText(row.isUnique) == unique;
    RowPrinted(row);
    hide StoredSignature, SixDigits, StringValue, BoolText;
  }

  /** A row with the fields of a scanned column. */
  function AsRow(col: ScannedColumn): ColumnRow {
    ColumnRow(0, col.dataType, col.fullDataType, col.isNullable, col.defaultValue, col.isPrimaryKey, col.isUnique,
              col.ordinalPosition, col.description, col.parentColumnPath, NormalizeConfidence(col.confidence), None)
  }

  lemma ScanForm(col: ScannedColumn)
    ensures ScannedSignature(col) ==
            "type=" + (ScanWoven(col) + (" confidence=" + SixDigits(NormalizeConfidence(col.confidence))))
  {
    RowForm(AsRow(col));
    assert StoredSignature(AsRow(col)) == ScannedSignature(col);
    hide StoredSignature, ScannedSignature;
  }

  // ---------------------------------------------------------------- unambiguous columns

  /** No text of the column has a separator inside that could be taken for one of its neighbours. */
  ghost predicate Unambiguous(col: ScannedColumn) {
    var default, parent, desc :=
      StringValue(col.defaultValue), StringValue(col.parentColumnPath), StringValue(col.description);
    && !Inside(" full=", col.dataType) && !Inside(" full=", col.fullDataType)
    && (forall n: bool, p: bool, u: bool ::
          !Inside(Middle(n, p, u), col.fullDataType) && !Inside(Middle(n, p, u), default))
    && !Inside(" parent=", default) && !Inside(" parent=", parent)
    && !Inside(" desc=", parent) && !Inside(" desc=", desc)
  }

  lemma UnambiguousIs(col: ScannedColumn)
    ensures Unambiguous(col) <==> Clear(KINDS, ScanTexts(col))
  {
    hide Inside, Middle, StringValue;
    MiddlesFree(col.fullDataType);
    MiddlesFree(StringValue(col.defaultValue));
    OneFree(" full=", col.dataType);
    OneFree(" full=", col.fullDataType);
    OneFree(" parent=", StringValue(col.defaultValue));
    OneFree(" parent=", StringValue(col.parentColumnPath));
    OneFree(" desc=", StringValue(col.parentColumnPath));
    OneFree(" desc=", StringValue(col.description));
    hide Free, MIDDLES;
    assert ScanTexts(col)[0] == col.dataType;
    ClearIs(ScanTexts(col));
  }

  lemma ClearIs(ts: seq<string>)
    requires |ts| == 5
    ensures Clear(KINDS, ts) <==>
      && Free({" full="}, ts[0]) && Free({" full="}, ts[1]) && Free(MIDDLES, ts[1]) && Free(MIDDLES, ts[2])
      && Free({" parent="}, ts[2]) && Free({" parent="}, ts[3]) && Free({" desc="}, ts[3]) && Free({" desc="}, ts[4])
  {
    hide Free, MIDDLES;
    assert KINDS[0] == {" full="} && KINDS[1] == MIDDLES && KINDS[2] == {" parent="} && KINDS[3] == {" desc="};
  }

  lemma OneFree(m: string, t: string)
    ensures Free({m}, t) <==> !Inside(m, t)
  {
    hide Inside;
    assert m in {m};
  }

  lemma MiddlesFree(t: string)
    ensures Free(MIDDLES, t) <==> forall n: bool, p: bool, u: bool :: !Inside(Middle(n, p, u), t)
  {
    hide Inside, Middle;
    forall n: bool, p: bool, u: bool ensures Middle(n, p, u) in MIDDLES {}
  }

  /** With an unambiguous scanned column, signatures are equal exactly when the columns agree in
      every respect, whatever the stored row holds. */
  lemma SignatureMeans(row: ColumnRow, col: ScannedColumn)
    requires Unambiguous(col)
    ensures StoredSignature(row) == ScannedSignature(col) <==> forall f :: Agrees(row, col, f)
  {
    hide Agrees, StoredSignature, ScannedSignature;
    if forall f :: Agrees(row, col, f) {
      AgreementIsSilent(row, col);
    }
    if StoredSignature(row) == ScannedSignature(col) {
      RowForm(row);
      ScanForm(col);
      SameParts(row, col);
      forall f ensures Agrees(row, col, f) {
        SameField(row, col, f);
      }
    }
  }

  lemma SameParts(row: ColumnRow, col: ScannedColumn)
    requires Unambiguous(col)
    requires "type=" + (RowWoven(row) + (" confidence=" + SixDigits(row.confidence))) ==
             "type=" + (ScanWoven(col) + (" confidence=" + SixDigits(NormalizeConfidence(col.confidence))))
    ensures RowTexts(row) == ScanTexts(col)
    ensures SixDigits(row.confidence) == SixDigits(NormalizeConfidence(col.confidence))
    ensures row.isNullable == col.isNullable && row.isPrimaryKey == col.isPrimaryKey && row.isUnique == col.isUnique
  {
    var s, t := SixDigits(row.confidence), SixDigits(NormalizeConfidence(col.confidence));
    SixPlain(row.confidence);
    SixPlain(NormalizeConfidence(col.confidence));
    hide SixDigits, Plain, Unambiguous, Clear, OfKinds, AllKinds, Woven, Middle, BoolText;
    SameLead("type=", RowWoven(row) + (" confidence=" + s), ScanWoven(col) + (" confidence=" + t));
    LastText(RowWoven(row), ScanWoven(col), " confidence=", s, t);
    KindsAre();
    UnambiguousIs(col);
    var ms := Between(row.isNullable, row.isPrimaryKey, row.isUnique);
    var ns := Between(col.isNullable, col.isPrimaryKey, col.isUnique);
    BetweenIsKinds(row.isNullable, row.isPrimaryKey, row.isUnique);
    BetweenIsKinds(col.isNullable, col.isPrimaryKey, col.isUnique);
    OnlyWeave(KINDS, RowTexts(row), ms, ScanTexts(col), ns);
    assert ms[1] == ns[1];
    assert ms[1] + "" == ms[1];
    MiddlePrefix(row.isNullable, row.isPrimaryKey, row.isUnique, col.isNullable, col.isPrimaryKey, col.isUnique, "");
  }

  lemma SameField(row: ColumnRow, col: ScannedColumn, f: Field)
    requires RowTexts(row) == ScanTexts(col)
    requires SixDigits(row.confidence) == SixDigits(NormalizeConfidence(col.confidence))
    requires row.isNullable == col.isNullable && row.isPrimaryKey == col.isPrimaryKey && row.isUnique == col.isUnique
    ensures Agrees(row, col, f)
  {
    hide SixDigits, StringValue, Agrees;
    var ts, us := RowTexts(row), ScanTexts(col);
    assert ts[0] == us[0] && ts[1] == us[1] && ts[2] == us[2] && ts[3] == us[3] && ts[4] == us[4];
    TextsAgree(row, col, f);
  }

  /** A scanned column that is not unambiguous has the signature of a row that differs from it. */
  lemma AliasExists(col: ScannedColumn) returns (row: ColumnRow, f: Field)
    requires !Unambiguous(col)
    ensures StoredSignature(row) == ScannedSignature(col) && !Agrees(row, col, f)
  {
    hide Unambiguous, Clear, OfKinds, AllKinds, Woven, Middle, Agrees, StoredSignature, ScannedSignature, SixDigits;
    KindsAre();
    UnambiguousIs(col);
    BetweenIsKinds(col.isNullable, col.isPrimaryKey, col.isUnique);
    var us, ns := AnotherWeave(KINDS, ScanTexts(col), Between(col.isNullable, col.isPrimaryKey, col.isUnique));
    var n, p, u := MiddleOf(ns);
    row := ColumnRow(0, us[0], us[1], n, Some(us[2]), p, u, 1, Some(us[4]), Some(us[3]),
                     NormalizeConfidence(col.confidence), None);
    assert RowTexts(row) == us;
    RowForm(row);
    ScanForm(col);
    f := DifferentText(row, col);
  }

  lemma MiddleOf(ns: seq<string>) returns (n: bool, p: bool, u: bool)
    requires OfKinds(KINDS, ns)
    ensures ns == Between(n, p, u)
  {
    hide Middle;
    assert ns[0] in KINDS[0] && ns[1] in KINDS[1] && ns[2] in KINDS[2] && ns[3] in KINDS[3];
    n, p, u :| ns[1] == Middle(n, p, u);
  }

  lemma DifferentText(row: ColumnRow, col: ScannedColumn) returns (f: Field)
    requires RowTexts(row) != ScanTexts(col)
    ensures !Agrees(row, col, f)
  {
    hide Agrees, StringValue;
    var ts, us := RowTexts(row), ScanTexts(col);
    var k :| 0 <= k < 5 && ts[k] != us[k];
    f := [DataType, FullType, Default, Parent, Description][k];
    TextsAgree(row, col, f);
  }

  /** A scanned column cannot be mistaken for a row that differs from it if and only if it is
      unambiguous. */
  lemma MistakenExactly(col: ScannedColumn)
    ensures Unambiguous(col) <==>
      forall row, f | StoredSignature(row) == ScannedSignature(col) :: Agrees(row, col, f)
  {
    hide Unambiguous, Agrees, StoredSignature, ScannedSignature;
    if Unambiguous(col) {
      forall row, f | StoredSignature(row) == ScannedSignature(col) ensures Agrees(row, col, f) {
        SignatureMeans(row, col);
      }
    } else {
      var row, f := AliasExists(col);
    }
  }

  /** Two different columns with one signature: the texts are not delimited. */
  lemma SignatureAmbiguous()
    ensures var row := ColumnRow(1, "a full=b", "c", false, None, false, false, 1, None, None, 1.0, None);
      var col := ScannedColumn("n", "a", "b full=c", false, None, false, false, 1, None, None, 1.0);
      StoredSignature(row) == ScannedSignature(col) && !Agrees(row, col, DataType) && !Agrees(row, col, FullType)
  {
    hide SixDigits, StoredSignature, ScannedSignature, Middle, Woven;
    var row := ColumnRow(1, "a full=b", "c", false, None, false, false, 1, None, None, 1.0, None);
    var col := ScannedColumn("n", "a", "b full=c", false, None, false, false, 1, None, None, 1.0);
    RowForm(row);
    ScanForm(col);
    var ts, us := RowTexts(row), ScanTexts(col);
    assert "a full=b" + " full=" + "c" == "a" + " full=" + "b full=c";
    Rewoven(ts, Between(false, false, false), us, Between(false, false, false), 0);
  }

  /** Differences that are sure to show: a single one, or any where the scanned column is
      unambiguous. */
  ghost predicate Noticeable(row: ColumnRow, col: ScannedColumn) {
    || (exists f :: DifferOnlyIn(row, col, f))
    || (Unambiguous(col) && exists f :: !Agrees(row, col, f))
  }

  lemma NoticeableShows(row: ColumnRow, col: ScannedColumn)
    requires Noticeable(row, col)
    ensures StoredSignature(row) != ScannedSignature(col)
  {
    hide Agrees, StoredSignature, ScannedSignature, Unambiguous;
    if f :| DifferOnlyIn(row, col, f) {
      OneDifferenceShows(row, col, f);
    } else {
      SignatureMeans(row, col);
    }
  }
}
