/** The SQLite schema migrations, as scripts run by an interpreter for the statements they use. */
module Migrations {
  import opened Common

  datatype TableName = IssuedCerts | IssuedCertsNew | IssuedCertsOld
  datatype ColumnName = Id | KeyId | Principals | CreatedAt | ExpiresAt | Revoked | RawKey | Message
  datatype IndexName = IdxExpiresAt | IdxRevokedExpiresAt

  datatype Value = Null | Int(n: int) | Text(s: string)

  /** A rowid column is filled in by the database. Primary keys are unique columns. */
  datatype Column = Column(notNull: bool, unique: bool, rowid: bool, default: Value)

  type Schema = map<ColumnName, Column>
  type Row = map<ColumnName, Value>

  datatype Table = Table(schema: Schema, rows: seq<Row>)
  datatype Index = Index(table: TableName, columns: seq<ColumnName>)
  datatype Db = Db(tables: map<TableName, Table>, indexes: map<IndexName, Index>)

  datatype Statement =
    | CreateTable(name: TableName, ifNotExists: bool, schema: Schema)
    | InsertSelect(into: TableName, columns: set<ColumnName>, source: TableName)
    | DropTable(name: TableName)
    | RenameTable(name: TableName, to: TableName)
    | AddColumn(name: TableName, column: ColumnName, def: Column)
    | CreateIndex(index: IndexName, name: TableName, on: seq<ColumnName>)
    | DropIndex(index: IndexName)

  /** NOT NULL and UNIQUE. */
  predicate Satisfies(schema: Schema, rows: seq<Row>) {
    && (forall i, c :: 0 <= i < |rows| && c in schema && schema[c].notNull ==> c in rows[i] && rows[i][c] != Null)
    && (forall i, j, c :: 0 <= i < j < |rows| && c in schema && schema[c].unique && c in rows[i] && c in rows[j] ==>
          rows[i][c] == Null || rows[i][c] != rows[j][c])
  }

  /** The row that an insert of the given columns makes. */
  function NewRow(schema: Schema, columns: set<ColumnName>, from: Row, rowid: nat): Row {
    map c | c in schema ::
      if c in columns then (if c in from then from[c] else Null)
      else if schema[c].rowid then Int(rowid)
      else schema[c].default
  }

  function Inserted(into: Table, columns: set<ColumnName>, source: Table): seq<Row> {
    into.rows + seq(|source.rows|, i requires 0 <= i < |source.rows| =>
      NewRow(into.schema, columns, source.rows[i], |into.rows| + i + 1))
  }

  function Filled(rows: seq<Row>, c: ColumnName, value: Value): seq<Row> {
    seq(|rows|, i requires 0 <= i < |rows| => rows[i][c := value])
  }

  function Moved(indexes: map<IndexName, Index>, name: TableName, to: TableName): map<IndexName, Index> {
    map x | x in indexes :: if indexes[x].table == name then indexes[x].(table := to) else indexes[x]
  }

  /** One statement; None is an error. */
  function Exec(db: Db, s: Statement): Option<Db> {
    match s
    case CreateTable(name, ifNotExists, schema) =>
      if name !in db.tables then Some(db.(tables := db.tables[name := Table(schema, [])]))
      else if ifNotExists then Some(db) else None
    case InsertSelect(into, columns, source) =>
      if into !in db.tables || source !in db.tables then None
      else
        var dst, src := db.tables[into], db.tables[source];
        if !(columns <= dst.schema.Keys && columns <= src.schema.Keys) then None
        else
          var rows := Inserted(dst, columns, src);
          if Satisfies(dst.schema, rows) then Some(db.(tables := db.tables[into := dst.(rows := rows)])) else None
    case DropTable(name) =>
      if name !in db.tables then None
      else Some(Db(db.tables - {name}, map x | x in db.indexes && db.indexes[x].table != name :: db.indexes[x]))
    case RenameTable(name, to) =>
      if name !in db.tables || to in db.tables then None
      else Some(Db((db.tables - {name})[to := db.tables[name]],
                   Moved(db.indexes, name, to)))
    case AddColumn(name, column, def) =>
      if name !in db.tables || column in db.tables[name].schema then None
      else if def.unique || (def.notNull && def.default == Null) then None
      else
        var t := db.tables[name];
        Some(db.(tables := db.tables[name := Table(
          t.schema[column := def], Filled(t.rows, column, def.default))]))
    case CreateIndex(index, name, on) =>
      if index in db.indexes || name !in db.tables then None
      else if exists i :: 0 <= i < |on| && on[i] !in db.tables[name].schema then None
      else Some(db.(indexes := db.indexes[index := Index(name, on)]))
    case DropIndex(index) =>
      if index !in db.indexes then None else Some(db.(indexes := db.indexes - {index}))
  }

  function RunScript(db: Db, script: seq<Statement>): Option<Db>
    decreases |script|
  {
    if script == [] then Some(db)
    else match Exec(db, script[0])
         case None => None
         case Some(next) => RunScript(next, script[1..])
  }

  // ---- the scripts ----

  const CORE: set<ColumnName> := {KeyId, Principals, CreatedAt, ExpiresAt, Revoked, RawKey}

  const EPOCH: Value := Text("1970-01-01 00:00:01")

  const SCHEMA_1: Schema := map[
    KeyId := Column(true, true, false, Null),
    Principals := Column(false, false, false, Text("[]")),
    CreatedAt := Column(false, false, false, EPOCH),
    ExpiresAt := Column(false, false, false, EPOCH),
    Revoked := Column(false, false, false, Int(0)),
    RawKey := Column(false, false, false, Null)]

  const SCHEMA_3: Schema := SCHEMA_1[Id := Column(false, true, true, Null)]

  const MESSAGE: Column := Column(true, false, false, Text(""))

  const CREATE_IDX_EXPIRES: Statement := CreateIndex(IdxExpiresAt, IssuedCerts, [ExpiresAt])
  const CREATE_IDX_REVOKED: Statement := CreateIndex(IdxRevokedExpiresAt, IssuedCerts, [Revoked, ExpiresAt])

  /** Build a new table, copy the rows, put it in the old one's place and index it again. */
  function Rebuild(temp: TableName, ifNotExists: bool, schema: Schema): seq<Statement> {
    [CreateTable(temp, ifNotExists, schema),
     InsertSelect(temp, CORE, IssuedCerts),
     DropTable(IssuedCerts),
     RenameTable(temp, IssuedCerts),
     CREATE_IDX_EXPIRES]
  }

  const LATEST: nat := 4

  /** The script from version v to v + 1. */
  function Up(v: nat): seq<Statement>
    requires v < LATEST
  {
    if v == 0 then [CreateTable(IssuedCerts, true, SCHEMA_1), CREATE_IDX_EXPIRES, CREATE_IDX_REVOKED]
    else if v == 1 then [DropIndex(IdxRevokedExpiresAt)]
    else if v == 2 then Rebuild(IssuedCertsNew, false, SCHEMA_3)
    else [AddColumn(IssuedCerts, Message, MESSAGE)]
  }

  /** The script from version v to v - 1. */
  function Down(v: nat): seq<Statement>
    requires 0 < v <= LATEST
  {
    if v == 1 then [DropTable(IssuedCerts)]
    else if v == 2 then [CREATE_IDX_REVOKED]
    else if v == 3 then Rebuild(IssuedCertsOld, true, SCHEMA_1)
    else Rebuild(IssuedCertsNew, false, SCHEMA_3)
  }

  // ---- what each version looks like ----

  function SchemaAt(v: nat): Schema {
    if v <= 2 then SCHEMA_1 else if v == 3 then SCHEMA_3 else SCHEMA_3[Message := MESSAGE]
  }

  function IndexesAt(v: nat): map<IndexName, Index> {
    if v == 0 then map[]
    else if v == 1 then map[IdxExpiresAt := Index(IssuedCerts, [ExpiresAt]),
                            IdxRevokedExpiresAt := Index(IssuedCerts, [Revoked, ExpiresAt])]
    else map[IdxExpiresAt := Index(IssuedCerts, [ExpiresAt])]
  }

  predicate Complete(schema: Schema, rows: seq<Row>) {
    forall i :: 0 <= i < |rows| ==> rows[i].Keys == schema.Keys
  }

  /** The tables and indexes are those of version v, and the rows meet its constraints. */
  predicate AtVersion(db: Db, v: nat) {
    && db.indexes == IndexesAt(v)
    && if v == 0 then db.tables == map[]
       else
         && db.tables.Keys == {IssuedCerts}
         && db.tables[IssuedCerts].schema == SchemaAt(v)
         && Complete(SchemaAt(v), db.tables[IssuedCerts].rows)
         && Satisfies(SchemaAt(v), db.tables[IssuedCerts].rows)
  }

  /** The columns every version has: those of the first. */
  function Core(row: Row): Row {
    map c | c in row && c in SchemaAt(1) :: row[c]
  }

  function Data(db: Db): seq<Row>
    requires IssuedCerts in db.tables
  {
    var rows := db.tables[IssuedCerts].rows;
    seq(|rows|, i requires 0 <= i < |rows| => Core(rows[i]))
  }

  // ---- one migration ----

  lemma RunOne(db: Db, s: Statement)
    ensures RunScript(db, [s]) == Exec(db, s)
  {
  }

  lemma RunCons(db: Db, s: Statement, rest: seq<Statement>)
    ensures RunScript(db, [s] + rest)
            == match Exec(db, s) case None => None case Some(next) => RunScript(next, rest)
  {
  }

  /** Holds the common columns, with key_id as a key. */
  predicate Keyed(schema: Schema) {
    CORE <= schema.Keys && schema[KeyId].notNull && schema[KeyId].unique
  }

  /** A keyed schema with no constraints but those of key_id and of a row id. */
  predicate Plain(schema: Schema) {
    && Keyed(schema)
    && (forall c :: c in schema && c !in CORE ==> c == Id && schema[c].rowid)
    && (forall c :: c in schema && schema[c].notNull ==> c == KeyId)
    && (forall c :: c in schema && schema[c].unique ==> c == KeyId || c == Id)
  }

  lemma SchemaFacts(v: nat)
    ensures Keyed(SchemaAt(v))
    ensures v <= 3 ==> Plain(SchemaAt(v))
  {
  }

  /** Every row has a key id, and no two rows share one. */
  predicate DistinctKeys(rows: seq<Row>) {
    && (forall i :: 0 <= i < |rows| ==> KeyId in rows[i] && rows[i][KeyId] != Null)
    && (forall i, j :: 0 <= i < j < |rows| ==> rows[i][KeyId] != rows[j][KeyId])
  }

  lemma KeysDistinct(schema: Schema, rows: seq<Row>)
    requires Keyed(schema) && Complete(schema, rows) && Satisfies(schema, rows)
    ensures DistinctKeys(rows)
  {
  }

  lemma PlainSatisfied(schema: Schema, rows: seq<Row>)
    requires Plain(schema) && Complete(schema, rows) && DistinctKeys(rows)
    requires Id in schema ==> forall i :: 0 <= i < |rows| ==> rows[i][Id] == Int(i + 1)
    ensures Satisfies(schema, rows)
  {
  }

  lemma CopiedAt(source: Table, schema: Schema, i: nat)
    requires Plain(schema) && Keyed(source.schema) && Complete(source.schema, source.rows) && i < |source.rows|
    ensures var copied := Inserted(Table(schema, []), CORE, source);
            && |copied| == |source.rows| && copied[i].Keys == schema.Keys
            && KeyId in source.rows[i] && copied[i][KeyId] == source.rows[i][KeyId]
            && Core(copied[i]) == Core(source.rows[i])
            && (Id in schema ==> copied[i][Id] == Int(i + 1))
  {
  }

  /** Copying the common columns into an empty table keeps them, and keeps the constraints. */
  lemma CopyKeepsData(source: Table, schema: Schema, copied: seq<Row>)
    requires Plain(schema) && Keyed(source.schema)
    requires Complete(source.schema, source.rows) && Satisfies(source.schema, source.rows)
    requires copied == Inserted(Table(schema, []), CORE, source)
    ensures |copied| == |source.rows| && Complete(schema, copied) && Satisfies(schema, copied)
    ensures forall i :: 0 <= i < |copied| ==> Core(copied[i]) == Core(source.rows[i])
  {
    KeysDistinct(source.schema, source.rows);
    forall i | 0 <= i < |source.rows|
      ensures copied[i].Keys == schema.Keys && copied[i][KeyId] == source.rows[i][KeyId]
      ensures Core(copied[i]) == Core(source.rows[i]) && (Id in schema ==> copied[i][Id] == Int(i + 1))
    {
      CopiedAt(source, schema, i);
    }
    PlainSatisfied(schema, copied);
  }

  /** The table `t` alone, under the name `name`. */
  function Only(name: TableName, t: Table, indexes: map<IndexName, Index>): Db {
    Db(map[name := t], indexes)
  }

  lemma DropOld(temp: TableName, was: Table, t: Table, indexes: map<IndexName, Index>)
    requires temp != IssuedCerts && forall x :: x in indexes ==> indexes[x].table == IssuedCerts
    ensures Exec(Db(map[IssuedCerts := was, temp := t], indexes), DropTable(IssuedCerts)) == Some(Only(temp, t, map[]))
  {
    assert map[IssuedCerts := was, temp := t] - {IssuedCerts} == map[temp := t];
  }

  lemma RenameNew(temp: TableName, t: Table)
    requires temp != IssuedCerts
    ensures Exec(Only(temp, t, map[]), RenameTable(temp, IssuedCerts)) == Some(Only(IssuedCerts, t, map[]))
  {
    assert Moved(map[], temp, IssuedCerts) == map[];
    assert (map[temp := t] - {temp})[IssuedCerts := t] == map[IssuedCerts := t];
  }

  lemma CopyInto(temp: TableName, was: Table, schema: Schema, copied: seq<Row>, indexes: map<IndexName, Index>)
    requires temp != IssuedCerts && Plain(schema) && Keyed(was.schema)
    requires copied == Inserted(Table(schema, []), CORE, was) && Satisfies(schema, copied)
    ensures Exec(Db(map[IssuedCerts := was, temp := Table(schema, [])], indexes), InsertSelect(temp, CORE, IssuedCerts))
            == Some(Db(map[IssuedCerts := was, temp := Table(schema, copied)], indexes))
  {
    assert map[IssuedCerts := was, temp := Table(schema, [])][temp := Table(schema, copied)]
           == map[IssuedCerts := was, temp := Table(schema, copied)];
  }

  lemma CreateTemp(temp: TableName, was: Table, schema: Schema, ifNotExists: bool, indexes: map<IndexName, Index>)
    requires temp != IssuedCerts
    ensures Exec(Only(IssuedCerts, was, indexes), CreateTable(temp, ifNotExists, schema))
            == Some(Db(map[IssuedCerts := was, temp := Table(schema, [])], indexes))
  {
  }

  lemma IndexAgain(t: Table, v: nat)
    requires v >= 2 && Keyed(t.schema)
    ensures Exec(Only(IssuedCerts, t, map[]), CREATE_IDX_EXPIRES) == Some(Only(IssuedCerts, t, IndexesAt(v)))
  {
  }

  lemma AtVersionOnly(db: Db, v: nat)
    requires 1 <= v <= LATEST && AtVersion(db, v)
    ensures db == Only(IssuedCerts, db.tables[IssuedCerts], IndexesAt(v))
  {
  }

  /** A rebuild from any version with rows leaves the plain version with the same data. */
  lemma RebuildWorks(db: Db, v: nat, temp: TableName, ifNotExists: bool, w: nat)
    requires 2 <= v <= LATEST && (w == 2 || w == 3) && AtVersion(db, v)
    requires temp != IssuedCerts
    ensures var r := RunScript(db, Rebuild(temp, ifNotExists, SchemaAt(w)));
            r.Some? && AtVersion(r.value, w) && Data(r.value) == Data(db)
  {
    var schema, was := SchemaAt(w), db.tables[IssuedCerts];
    var rows := Inserted(Table(schema, []), CORE, was);
    var copied := Table(schema, rows);
    SchemaFacts(v);
    SchemaFacts(w);
    CopyKeepsData(was, schema, rows);
    AtVersionOnly(db, v);
    CreateTemp(temp, was, schema, ifNotExists, db.indexes);
    CopyInto(temp, was, schema, rows, db.indexes);
    DropOld(temp, was, copied, db.indexes);
    RenameNew(temp, copied);
    IndexAgain(copied, w);
    RunRebuild(db, temp, ifNotExists, schema,
               Db(map[IssuedCerts := was, temp := Table(schema, [])], db.indexes),
               Db(map[IssuedCerts := was, temp := copied], db.indexes),
               Only(temp, copied, map[]), Only(IssuedCerts, copied, map[]), Only(IssuedCerts, copied, IndexesAt(w)));
    Rebuilt(db, copied, w);
  }

  lemma Rebuilt(db: Db, t: Table, w: nat)
    requires 1 <= w <= LATEST && t.schema == SchemaAt(w) && Complete(t.schema, t.rows) && Satisfies(t.schema, t.rows)
    requires IssuedCerts in db.tables && |t.rows| == |db.tables[IssuedCerts].rows|
    requires forall i :: 0 <= i < |t.rows| ==> Core(t.rows[i]) == Core(db.tables[IssuedCerts].rows[i])
    ensures var r := Only(IssuedCerts, t, IndexesAt(w)); AtVersion(r, w) && Data(r) == Data(db)
  {
  }

  lemma RunRebuild(db: Db, temp: TableName, ifNotExists: bool, schema: Schema, d1: Db, d2: Db, d3: Db, d4: Db, d5: Db)
    requires Exec(db, CreateTable(temp, ifNotExists, schema)) == Some(d1)
    requires Exec(d1, InsertSelect(temp, CORE, IssuedCerts)) == Some(d2)
    requires Exec(d2, DropTable(IssuedCerts)) == Some(d3)
    requires Exec(d3, RenameTable(temp, IssuedCerts)) == Some(d4)
    requires Exec(d4, CREATE_IDX_EXPIRES) == Some(d5)
    ensures RunScript(db, Rebuild(temp, ifNotExists, schema)) == Some(d5)
  {
    var s := Rebuild(temp, ifNotExists, schema);
    RunCons(db, s[0], s[1..]);
    RunCons(d1, s[1], s[2..]);
    RunCons(d2, s[2], s[3..]);
    RunCons(d3, s[3], s[4..]);
    RunOne(d4, s[4]);
    assert s == [s[0]] + s[1..] && s[1..] == [s[1]] + s[2..];
    assert s[2..] == [s[2]] + s[3..] && s[3..] == [s[3]] + s[4..] && s[4..] == [s[4]];
  }

  lemma CreateWorks(db: Db)
    requires AtVersion(db, 0)
    ensures var r := RunScript(db, Up(0));
            r.Some? && AtVersion(r.value, 1) && Data(r.value) == []
  {
  }

  /** Dropping and creating the second index touch no table. */
  lemma DropIndexWorks(db: Db)
    requires AtVersion(db, 1)
    ensures RunScript(db, Up(1)) == Some(db.(indexes := IndexesAt(2)))
  {
    RunOne(db, DropIndex(IdxRevokedExpiresAt));
    assert IndexesAt(1) - {IdxRevokedExpiresAt} == IndexesAt(2);
  }

  lemma CreateIndexWorks(db: Db)
    requires AtVersion(db, 2)
    ensures RunScript(db, Down(2)) == Some(db.(indexes := IndexesAt(1)))
  {
  }

  lemma DropWorks(db: Db)
    requires AtVersion(db, 1)
    ensures RunScript(db, Down(1)) == Some(Db(map[], map[]))
  {
  }

  function WithMessage(rows: seq<Row>): seq<Row> {
    Filled(rows, Message, Text(""))
  }

  lemma MessageColumnWorks(rows: seq<Row>)
    requires Complete(SchemaAt(3), rows) && Satisfies(SchemaAt(3), rows)
    ensures Complete(SchemaAt(4), WithMessage(rows)) && Satisfies(SchemaAt(4), WithMessage(rows))
    ensures forall i :: 0 <= i < |rows| ==> Core(WithMessage(rows)[i]) == Core(rows[i])
  {
  }

  predicate BlankMessages(db: Db) {
    IssuedCerts in db.tables &&
    forall i :: 0 <= i < |db.tables[IssuedCerts].rows| ==>
      Message in db.tables[IssuedCerts].rows[i] && db.tables[IssuedCerts].rows[i][Message] == Text("")
  }

  lemma AddReasonWorks(db: Db)
    requires AtVersion(db, 3)
    ensures var r := RunScript(db, Up(3));
            r.Some? && AtVersion(r.value, 4) && Data(r.value) == Data(db) && BlankMessages(r.value)
  {
    var t := db.tables[IssuedCerts];
    MessageColumnWorks(t.rows);
    var after := Table(SchemaAt(4), WithMessage(t.rows));
    RunOne(db, AddColumn(IssuedCerts, Message, MESSAGE));
    assert Message !in t.schema;
    assert RunScript(db, Up(3)) == Some(db.(tables := db.tables[IssuedCerts := after]));
  }

  datatype Direction = ToNext | ToPrevious

  function Target(v: nat, d: Direction): int {
    if d.ToNext? then v + 1 else v - 1
  }

  function Script(v: nat, d: Direction): seq<Statement>
    requires v <= LATEST && 0 <= Target(v, d) <= LATEST
  {
    if d.ToNext? then Up(v) else Down(v)
  }

  /** One migration in either direction succeeds, reaches its version, and keeps the data between versions with any. */
  lemma MigrationWorks(db: Db, v: nat, d: Direction)
    requires v <= LATEST && 0 <= Target(v, d) <= LATEST && AtVersion(db, v)
    ensures var r := RunScript(db, Script(v, d));
            && r.Some? && AtVersion(r.value, Target(v, d))
            && (v >= 1 && Target(v, d) >= 1 ==> Data(r.value) == Data(db))
            && (Target(v, d) == LATEST ==> BlankMessages(r.value))
  {
    match d
    case ToNext =>
      if v == 0 {
        CreateWorks(db);
      } else if v == 1 {
        DropIndexWorks(db);
      } else if v == 2 {
        RebuildWorks(db, 2, IssuedCertsNew, false, 3);
      } else {
        AddReasonWorks(db);
      }
    case ToPrevious =>
      if v == 1 {
        DropWorks(db);
      } else if v == 2 {
        CreateIndexWorks(db);
      } else if v == 3 {
        RebuildWorks(db, 3, IssuedCertsOld, true, 2);
      } else {
        RebuildWorks(db, 4, IssuedCertsNew, false, 3);
      }
  }

  /** The columns of the insert that the store prepares. */
  const STORED: set<ColumnName> := {KeyId, Principals, CreatedAt, ExpiresAt, RawKey, Message}

  /** Meaning of the latest schema for the store: what it inserts starts unrevoked, under the next row id. */
  lemma InsertedUnrevoked(values: Row, rowid: nat)
    requires values.Keys == STORED
    ensures STORED <= SchemaAt(LATEST).Keys
    ensures NewRow(SchemaAt(LATEST), STORED, values, rowid) == values[Revoked := Int(0)][Id := Int(rowid)]
  {
  }

  /** A row inserted with nothing but a key id has no principals and has long expired, in every version. */
  lemma InsertedBlank(v: nat, id: Value, rowid: nat)
    requires 1 <= v <= LATEST
    ensures var row := NewRow(SchemaAt(v), {KeyId}, map[KeyId := id], rowid);
            && row.Keys == SchemaAt(v).Keys && row[KeyId] == id && row[Principals] == Text("[]")
            && row[CreatedAt] == row[ExpiresAt] == Text("1970-01-01 00:00:01")
            && row[Revoked] == Int(0) && row[RawKey] == Null
  {
  }

  /** The constrained columns: key_id, the row id and the message. */
  lemma Constrained(v: nat)
    requires 1 <= v <= LATEST
    ensures forall c :: c in SchemaAt(v) ==> (SchemaAt(v)[c].notNull <==> c == KeyId || c == Message)
    ensures forall c :: c in SchemaAt(v) ==> (SchemaAt(v)[c].unique <==> c == KeyId || c == Id)
    ensures KeyId in SchemaAt(v) && (Id in SchemaAt(v) <==> v >= 3) && (Message in SchemaAt(v) <==> v >= 4)
  {
  }

  /** What the constraints come to in each version: unique key ids, unique row ids, and a message in every row. */
  predicate ProperRows(v: nat, rows: seq<Row>)
    requires 1 <= v <= LATEST && Complete(SchemaAt(v), rows)
  {
    Constrained(v);
    && DistinctKeys(rows)
    && (v >= 3 ==> forall i, j :: 0 <= i < j < |rows| ==> rows[i][Id] == Null || rows[i][Id] != rows[j][Id])
    && (v >= 4 ==> forall i :: 0 <= i < |rows| ==> rows[i][Message] != Null)
  }

  lemma SatisfiesIff(v: nat, rows: seq<Row>)
    requires 1 <= v <= LATEST && Complete(SchemaAt(v), rows)
    ensures Satisfies(SchemaAt(v), rows) <==> ProperRows(v, rows)
  {
    var schema := SchemaAt(v);
    Constrained(v);
    if Satisfies(schema, rows) {
      SchemaFacts(v);
      KeysDistinct(schema, rows);
    }
  }

  // ---- any script on any database ----

  predicate SoundTable(t: Table) {
    Complete(t.schema, t.rows) && Satisfies(t.schema, t.rows)
  }

  /** The index is on columns of a table that exists. */
  predicate SoundIndex(db: Db, x: Index) {
    x.table in db.tables && forall i :: 0 <= i < |x.columns| ==> x.columns[i] in db.tables[x.table].schema
  }

  predicate Sound(db: Db) {
    && (forall name :: name in db.tables ==> SoundTable(db.tables[name]))
    && (forall x :: x in db.indexes ==> SoundIndex(db, db.indexes[x]))
  }

  lemma AddColumnSound(t: Table, column: ColumnName, def: Column)
    requires SoundTable(t) && column !in t.schema && !def.unique && !(def.notNull && def.default == Null)
    ensures SoundTable(Table(t.schema[column := def], Filled(t.rows, column, def.default)))
  {
  }

  lemma InsertSound(into: Table, columns: set<ColumnName>, source: Table)
    requires SoundTable(into) && Satisfies(into.schema, Inserted(into, columns, source))
    ensures SoundTable(into.(rows := Inserted(into, columns, source)))
  {
  }

  /** A table may be replaced by one that has its columns. */
  lemma ReplaceSound(db: Db, name: TableName, t: Table)
    requires Sound(db) && name in db.tables && SoundTable(t) && db.tables[name].schema.Keys <= t.schema.Keys
    ensures Sound(db.(tables := db.tables[name := t]))
  {
  }

  lemma RenameSound(db: Db, name: TableName, to: TableName)
    requires Sound(db) && name in db.tables && to !in db.tables
    ensures Sound(Db((db.tables - {name})[to := db.tables[name]], Moved(db.indexes, name, to)))
  {
  }

  /** No statement leaves a row incomplete, a constraint broken or an index without its table, on any database. */
  lemma ExecSound(db: Db, s: Statement)
    requires Sound(db) && Exec(db, s).Some?
    ensures Sound(Exec(db, s).value)
  {
    match s
    case InsertSelect(into, columns, source) =>
      InsertSound(db.tables[into], columns, db.tables[source]);
      ReplaceSound(db, into, Exec(db, s).value.tables[into]);
    case AddColumn(name, column, def) =>
      AddColumnSound(db.tables[name], column, def);
      ReplaceSound(db, name, Exec(db, s).value.tables[name]);
    case RenameTable(name, to) => RenameSound(db, name, to);
    case _ =>
  }

  lemma {:induction false} ScriptSound(db: Db, script: seq<Statement>)
    requires Sound(db) && RunScript(db, script).Some?
    ensures Sound(RunScript(db, script).value)
    decreases |script|
  {
    if script != [] {
      ExecSound(db, script[0]);
      ScriptSound(Exec(db, script[0]).value, script[1..]);
    }
  }

  // ---- a table left over from an earlier rebuild ----

  /** Where the temporary table exists, a rebuild that insists on creating it fails. */
  lemma LeftoverStops(db: Db, temp: TableName, schema: Schema)
    requires temp in db.tables
    ensures RunScript(db, Rebuild(temp, false, schema)) == None
  {
  }

  function CoreOf(rows: seq<Row>): seq<Row> {
    seq(|rows|, i requires 0 <= i < |rows| => Core(rows[i]))
  }

  /** No row of one table has the key id of a row of the other. */
  predicate DisjointKeys(left: seq<Row>, rows: seq<Row>)
    requires DistinctKeys(left) && DistinctKeys(rows)
  {
    forall i, j :: 0 <= i < |left| && 0 <= j < |rows| ==> left[i][KeyId] != rows[j][KeyId]
  }

  /** Copying into a table of version 2 that has rows. */
  lemma CopyBehind(left: seq<Row>, source: Table)
    requires Complete(SCHEMA_1, left) && DistinctKeys(left)
    requires Keyed(source.schema) && Complete(source.schema, source.rows) && DistinctKeys(source.rows)
    ensures var rows := Inserted(Table(SCHEMA_1, left), CORE, source);
            && Complete(SCHEMA_1, rows) && CoreOf(rows) == CoreOf(left) + CoreOf(source.rows)
            && (Satisfies(SCHEMA_1, rows) <==> DisjointKeys(left, source.rows))
  {
    var rows := Inserted(Table(SCHEMA_1, left), CORE, source);
    assert rows[..|left|] == left;
    forall i | 0 <= i < |source.rows|
      ensures rows[|left| + i].Keys == SCHEMA_1.Keys && rows[|left| + i][KeyId] == source.rows[i][KeyId]
      ensures Core(rows[|left| + i]) == Core(source.rows[i])
    {
      CopiedBehind(left, source, i);
    }
    CompleteBehind(left, source.rows, rows);
    SatisfiesIff(2, rows);
    KeysBehind(left, source.rows, rows);
  }

  lemma CompleteBehind(left: seq<Row>, source: seq<Row>, rows: seq<Row>)
    requires Complete(SCHEMA_1, left) && |rows| == |left| + |source| && rows[..|left|] == left
    requires forall i :: 0 <= i < |source| ==>
               rows[|left| + i].Keys == SCHEMA_1.Keys && Core(rows[|left| + i]) == Core(source[i])
    ensures Complete(SCHEMA_1, rows) && CoreOf(rows) == CoreOf(left) + CoreOf(source)
  {
    var n := |left|;
    forall k | 0 <= k < |rows|
      ensures rows[k].Keys == SCHEMA_1.Keys && Core(rows[k]) == if k < n then Core(left[k]) else Core(source[k - n])
    {
      if k < n {
        assert rows[..n][k] == rows[k];
      } else {
        assert rows[n + (k - n)] == rows[k] && Core(source[k - n]) == Core(source[k - n]);
      }
    }
  }

  lemma CopiedBehind(left: seq<Row>, source: Table, i: nat)
    requires Keyed(source.schema) && Complete(source.schema, source.rows) && i < |source.rows|
    ensures var rows := Inserted(Table(SCHEMA_1, left), CORE, source);
            && |rows| == |left| + |source.rows| && rows[|left| + i].Keys == SCHEMA_1.Keys
            && rows[|left| + i][KeyId] == source.rows[i][KeyId] && Core(rows[|left| + i]) == Core(source.rows[i])
  {
  }

  lemma KeysBehind(left: seq<Row>, source: seq<Row>, rows: seq<Row>)
    requires DistinctKeys(left) && DistinctKeys(source) && |rows| == |left| + |source| && rows[..|left|] == left
    requires forall i :: 0 <= i < |source| ==> KeyId in rows[|left| + i] && rows[|left| + i][KeyId] == source[i][KeyId]
    ensures DistinctKeys(rows) <==> DisjointKeys(left, source)
  {
    var n := |left|;
    forall k | 0 <= k < |rows|
      ensures KeyId in rows[k] && rows[k][KeyId] == if k < n then left[k][KeyId] else source[k - n][KeyId]
    {
      if k >= n {
        assert KeyId in source[k - n];
      } else {
        assert rows[..n][k] == rows[k];
      }
    }
    if DistinctKeys(rows) {
      forall i, j | 0 <= i < n && 0 <= j < |source| ensures left[i][KeyId] != source[j][KeyId] {
        assert rows[i][KeyId] != rows[n + j][KeyId];
      }
    }
    forall i, j | DisjointKeys(left, source) && 0 <= i < j < |rows| ensures rows[i][KeyId] != rows[j][KeyId] {
      if i < n <= j {
        assert left[i][KeyId] != source[j - n][KeyId];
      }
    }
  }

  lemma InsertBehind(was: Table, left: seq<Row>, rows: seq<Row>, indexes: map<IndexName, Index>)
    requires Keyed(was.schema) && rows == Inserted(Table(SCHEMA_1, left), CORE, was)
    ensures var d := Db(map[IssuedCerts := was, IssuedCertsOld := Table(SCHEMA_1, left)], indexes);
            var d' := Db(map[IssuedCerts := was, IssuedCertsOld := Table(SCHEMA_1, rows)], indexes);
            && Exec(d, CreateTable(IssuedCertsOld, true, SCHEMA_1)) == Some(d)
            && Exec(d, InsertSelect(IssuedCertsOld, CORE, IssuedCerts))
               == if Satisfies(SCHEMA_1, rows) then Some(d') else None
  {
    assert map[IssuedCerts := was, IssuedCertsOld := Table(SCHEMA_1, left)][IssuedCertsOld := Table(SCHEMA_1, rows)]
           == map[IssuedCerts := was, IssuedCertsOld := Table(SCHEMA_1, rows)];
  }

  /** The script from version 3 back, with its temporary table left over. */
  lemma RebuildBehind(was: Table, left: seq<Row>, rows: seq<Row>, indexes: map<IndexName, Index>)
    requires Keyed(was.schema) && rows == Inserted(Table(SCHEMA_1, left), CORE, was)
    requires forall x :: x in indexes ==> indexes[x].table == IssuedCerts
    ensures RunScript(Db(map[IssuedCerts := was, IssuedCertsOld := Table(SCHEMA_1, left)], indexes), Down(3))
            == if Satisfies(SCHEMA_1, rows) then Some(Only(IssuedCerts, Table(SCHEMA_1, rows), IndexesAt(2))) else None
  {
    var d := Db(map[IssuedCerts := was, IssuedCertsOld := Table(SCHEMA_1, left)], indexes);
    var copied := Table(SCHEMA_1, rows);
    InsertBehind(was, left, rows, indexes);
    if Satisfies(SCHEMA_1, rows) {
      DropOld(IssuedCertsOld, was, copied, indexes);
      RenameNew(IssuedCertsOld, copied);
      IndexAgain(copied, 2);
      RunRebuild(d, IssuedCertsOld, true, SCHEMA_1, d, Db(map[IssuedCerts := was, IssuedCertsOld := copied], indexes),
                 Only(IssuedCertsOld, copied, map[]), Only(IssuedCerts, copied, map[]),
                 Only(IssuedCerts, copied, IndexesAt(2)));
    } else {
      var s := Rebuild(IssuedCertsOld, true, SCHEMA_1);
      RunCons(d, s[0], s[1..]);
      RunCons(d, s[1], s[2..]);
      assert s == [s[0]] + s[1..] && s[1..] == [s[1]] + s[2..];
    }
  }

  /**
   * The way back from version 3 does not insist. Where its temporary table is left over, it succeeds exactly when no
   * key id is in both tables, and then the rows left over come back in front of the others.
   */
  lemma LeftoverComesBack(db: Db, left: seq<Row>)
    requires AtVersion(db, 3) && Complete(SCHEMA_1, left) && DistinctKeys(left)
    ensures DistinctKeys(db.tables[IssuedCerts].rows)
    ensures var r := RunScript(db.(tables := db.tables[IssuedCertsOld := Table(SCHEMA_1, left)]), Down(3));
            && (r.Some? <==> DisjointKeys(left, db.tables[IssuedCerts].rows))
            && (r.Some? ==> AtVersion(r.value, 2) && Data(r.value) == CoreOf(left) + Data(db))
  {
    var was := db.tables[IssuedCerts];
    var rows := Inserted(Table(SCHEMA_1, left), CORE, was);
    SchemaFacts(3);
    KeysDistinct(SchemaAt(3), was.rows);
    CopyBehind(left, was);
    AtVersionOnly(db, 3);
    assert db.(tables := db.tables[IssuedCertsOld := Table(SCHEMA_1, left)])
           == Db(map[IssuedCerts := was, IssuedCertsOld := Table(SCHEMA_1, left)], db.indexes);
    RebuildBehind(was, left, rows, db.indexes);
    assert CoreOf(was.rows) == Data(db);
  }

  // ---- walks ----

  /** The walk stays between versions `least` and 4. */
  predicate Stays(v: nat, walk: seq<Direction>, least: nat)
    decreases |walk|
  {
    && least <= v <= LATEST
    && (walk == [] || (0 <= Target(v, walk[0]) <= LATEST && Stays(Target(v, walk[0]), walk[1..], least)))
  }

  function VersionAfter(v: nat, walk: seq<Direction>): nat
    requires Stays(v, walk, 0)
    decreases |walk|
  {
    if walk == [] then v else VersionAfter(Target(v, walk[0]), walk[1..])
  }

  function Migrate(db: Db, v: nat, walk: seq<Direction>): Option<Db>
    requires Stays(v, walk, 0)
    decreases |walk|
  {
    if walk == [] then Some(db)
    else match RunScript(db, Script(v, walk[0]))
         case None => None
         case Some(next) => Migrate(next, Target(v, walk[0]), walk[1..])
  }

  lemma {:induction false} StaysHigher(v: nat, walk: seq<Direction>)
    requires Stays(v, walk, 1)
    ensures Stays(v, walk, 0)
    decreases |walk|
  {
    if walk != [] {
      StaysHigher(Target(v, walk[0]), walk[1..]);
    }
  }

  /**
   * Every walk up and down succeeds, statement by statement, and ends with exactly the tables, constraints and
   * indexes of its last version. Coming to version 4 blanks every message.
   */
  lemma {:induction false} WalkWorks(db: Db, v: nat, walk: seq<Direction>)
    requires Stays(v, walk, 0) && AtVersion(db, v)
    ensures var r := Migrate(db, v, walk);
            && r.Some? && AtVersion(r.value, VersionAfter(v, walk))
            && (walk != [] && VersionAfter(v, walk) == LATEST ==> BlankMessages(r.value))
    decreases |walk|
  {
    if walk != [] {
      MigrationWorks(db, v, walk[0]);
      WalkWorks(RunScript(db, Script(v, walk[0])).value, Target(v, walk[0]), walk[1..]);
    }
  }

  /** A walk that stays at version 1 or above keeps every row, in order, in all the common columns, with unique keys. */
  lemma {:induction false} WalkKeepsData(db: Db, v: nat, walk: seq<Direction>)
    requires Stays(v, walk, 1) && AtVersion(db, v)
    ensures Stays(v, walk, 0)
    ensures var r := Migrate(db, v, walk);
            r.Some? && IssuedCerts in r.value.tables && Data(r.value) == Data(db)
            && DistinctKeys(r.value.tables[IssuedCerts].rows)
    decreases |walk|
  {
    StaysHigher(v, walk);
    if walk == [] {
      SchemaFacts(v);
      KeysDistinct(SchemaAt(v), db.tables[IssuedCerts].rows);
    } else {
      MigrationWorks(db, v, walk[0]);
      WalkKeepsData(RunScript(db, Script(v, walk[0])).value, Target(v, walk[0]), walk[1..]);
    }
  }
}
