/** The metadata catalogue: its tables, the statements that change them, and the
    signature by which a stored column is compared with a scanned one.

    Row identifiers are UUIDs in the program. Here they are numbers handed out by `nextId`,
    so "a fresh UUID" is "a number no row and no lineage edge has used before". */
module Catalog {
  import opened Options

  type Id = nat

  datatype Backend = SQLite | Postgres

  datatype ObjectRow = ObjectRow(
    sourceId: string, name: string, kind: string, schema: Option<string>,
    description: Option<string>, rowCount: Option<int>, sizeBytes: Option<int>, columnCount: nat)

  datatype ColumnRow = ColumnRow(
    id: Id, dataType: string, fullDataType: string, isNullable: bool,
    defaultValue: Option<string>, isPrimaryKey: bool, isUnique: bool, ordinalPosition: int,
    description: Option<string>, parentColumnPath: Option<string>, confidence: real, termId: Option<Id>)

  /** The columns table is UNIQUE(object_id, name), so that pair indexes it. */
  datatype ColumnKey = ColumnKey(owner: Id, name: string)

  datatype Edge = Edge(id: Id, src: Id, dst: Id)

  datatype Tables = Tables(
    objects: map<Id, ObjectRow>, columns: map<ColumnKey, ColumnRow>, edges: set<Edge>, nextId: Id)

  datatype ScannedColumn = ScannedColumn(
    name: string, dataType: string, fullDataType: string, isNullable: bool,
    defaultValue: Option<string>, isPrimaryKey: bool, isUnique: bool, ordinalPosition: int,
    description: Option<string>, parentColumnPath: Option<string>, confidence: real)

  datatype ScannedObject = ScannedObject(
    name: string, kind: string, schema: Option<string>, description: Option<string>,
    rowCount: Option<int>, sizeBytes: Option<int>, columns: seq<ScannedColumn>)

  // ---------------------------------------------------------------- keys and signatures

  function ObjectKey(schema: Option<string>, name: string): string {
    if schema == None || schema == Some("") then name else schema.value + "." + name
  }

  function StringValue(s: Option<string>): string {
    if s.None? then "" else s.value
  }

  function BoolText(b: bool): string {
    if b then "true" else "false"
  }

  function Digits(n: nat): (s: string)
    ensures |s| >= 1
  {
    if n < 10 then [('0' as int + n) as char] else Digits(n / 10) + [('0' as int + n % 10) as char]
  }

  function PadLeft(s: string, width: nat): string
    decreases width - |s|
  {
    if |s| >= width then s else PadLeft("0" + s, width)
  }

  /** Rounds to the nearest integer, ties to even. */
  function RoundHalfEven(x: real): int {
    var low := x.Floor;
    var rest := x - low as real;
    if rest < 0.5 || (rest == 0.5 && low % 2 == 0) then low else low + 1
  }

  /** The %f verb: six digits after the point. */
  function SixDigits(x: real): string {
    var micros := RoundHalfEven(x * 1000000.0);
    var abs := if micros < 0 then -micros else micros;
    (if micros < 0 then "-" else "") + Digits(abs / 1000000) + "." + PadLeft(Digits(abs % 1000000), 6)
  }

  function NormalizeConfidence(c: real): real {
    if c <= 0.0 then 1.0 else c
  }

  /** What reading a confidence back gives: a SQLite REAL keeps it, a Postgres DECIMAL(3,2)
      keeps two digits (ties away from zero). */
  function StoredConfidence(b: Backend, c: real): real {
    if b.SQLite? then c else (c * 100.0 + 0.5).Floor as real / 100.0
  }

  /** Labels and values in turn, as a format string prints them. */
  function Printed(fields: seq<(string, string)>): string {
    if fields == [] then "" else fields[0].0 + (fields[0].1 + Printed(fields[1..]))
  }

  function Signature(
    dataType: string, fullDataType: string, isNullable: bool, isPrimaryKey: bool, isUnique: bool,
    defaultValue: Option<string>, parentColumnPath: Option<string>, description: Option<string>,
    confidence: real): string
  {
    Printed([
      ("type=", dataType), (" full=", fullDataType), (" nullable=", BoolText(isNullable)),
      (" pk=", BoolText(isPrimaryKey)), (" unique=", BoolText(isUnique)), (" default=", StringValue(defaultValue)),
      (" parent=", StringValue(parentColumnPath)), (" desc=", StringValue(description)),
      (" confidence=", SixDigits(confidence))])
  }

  function StoredSignature(row: ColumnRow): string {
    Signature(row.dataType, row.fullDataType, row.isNullable, row.isPrimaryKey, row.isUnique,
              row.defaultValue, row.parentColumnPath, row.description, row.confidence)
  }

  function ScannedSignature(col: ScannedColumn): string {
    Signature(col.dataType, col.fullDataType, col.isNullable, col.isPrimaryKey, col.isUnique,
              col.defaultValue, col.parentColumnPath, col.description, NormalizeConfidence(col.confidence))
  }

  /** The printed confidence is the same before and after a trip through the table. */
  predicate Survives(b: Backend, col: ScannedColumn) {
    var c := NormalizeConfidence(col.confidence);
    SixDigits(StoredConfidence(b, c)) == SixDigits(c)
  }

  // ---------------------------------------------------------------- row values

  function NewObject(source: string, obj: ScannedObject): ObjectRow {
    ObjectRow(source, obj.name, obj.kind, obj.schema, obj.description, obj.rowCount, obj.sizeBytes, |obj.columns|)
  }

  /** UPDATE schema_objects: the name is not among the columns it sets. */
  function Refreshed(row: ObjectRow, obj: ScannedObject): ObjectRow {
    row.(kind := obj.kind, schema := obj.schema, description := obj.description,
         rowCount := obj.rowCount, sizeBytes := obj.sizeBytes, columnCount := |obj.columns|)
  }

  predicate NeedsUpdate(row: ObjectRow, obj: ScannedObject) {
    row.kind != obj.kind || row.schema != obj.schema || row.description != obj.description ||
    row.rowCount != obj.rowCount || row.sizeBytes != obj.sizeBytes || row.columnCount != |obj.columns|
  }

  function NewColumn(b: Backend, id: Id, col: ScannedColumn): ColumnRow {
    ColumnRow(id, col.dataType, col.fullDataType, col.isNullable, col.defaultValue, col.isPrimaryKey,
              col.isUnique, col.ordinalPosition, col.description, col.parentColumnPath,
              StoredConfidence(b, NormalizeConfidence(col.confidence)), None)
  }

  function Overwritten(b: Backend, row: ColumnRow, col: ScannedColumn): ColumnRow {
    row.(dataType := col.dataType, fullDataType := col.fullDataType, isNullable := col.isNullable,
         defaultValue := col.defaultValue, isPrimaryKey := col.isPrimaryKey, isUnique := col.isUnique,
         ordinalPosition := col.ordinalPosition, description := col.description,
         parentColumnPath := col.parentColumnPath,
         confidence := StoredConfidence(b, NormalizeConfidence(col.confidence)))
  }

  function Merged(b: Backend, row: ColumnRow, col: ScannedColumn): ColumnRow {
    if StoredSignature(row) != ScannedSignature(col) then Overwritten(b, row, col) else row
  }

  // ---------------------------------------------------------------- tables

  ghost predicate WellFormed(t: Tables) {
    && (forall k | k in t.columns :: k.owner in t.objects)
    && (forall k, l | k in t.columns && l in t.columns && t.columns[k].id == t.columns[l].id :: k == l)
    && (forall k | k in t.columns :: t.columns[k].id < t.nextId && t.columns[k].id !in t.objects)
    && (forall o | o in t.objects :: o < t.nextId)
    && (forall e | e in t.edges :: e.src < t.nextId && e.dst < t.nextId)
  }

  /** The identifiers of all rows a lineage edge may end at. */
  ghost function LiveIds(t: Tables): set<Id> {
    t.objects.Keys + set k | k in t.columns :: t.columns[k].id
  }

  ghost predicate Gone(pre: Tables, t: Tables, id: Id) {
    id in LiveIds(pre) && id !in LiveIds(t)
  }

  function WithObject(t: Tables, id: Id, row: ObjectRow): Tables {
    t.(objects := t.objects[id := row])
  }

  function WithColumn(t: Tables, k: ColumnKey, row: ColumnRow): Tables {
    t.(columns := t.columns[k := row])
  }

  function WithoutColumn(t: Tables, k: ColumnKey): Tables {
    t.(columns := t.columns - {k})
  }

  /** Deleting an object cascades to its columns. */
  function WithoutObject(t: Tables, id: Id): Tables {
    t.(objects := t.objects - {id}, columns := map k | k in t.columns && k.owner != id :: t.columns[k])
  }

  function WithoutEdgesAt(t: Tables, id: Id): Tables {
    t.(edges := set e | e in t.edges && e.src != id && e.dst != id)
  }

  /** UNIQUE(source_id, name, schema), where NULL schemas never collide. */
  predicate NameTaken(t: Tables, source: string, name: string, schema: Option<string>, except: set<Id>) {
    schema.Some? &&
    exists o | o in t.objects && o !in except ::
      t.objects[o].sourceId == source && t.objects[o].name == name && t.objects[o].schema == schema
  }
}
