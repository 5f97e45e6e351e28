/** The database setup of db.js: the tables it creates if they do not exist,
    the migration that adds the menu columns an older database lacks (with a
    backfill of the two timestamps), and the seeding of the default
    categories. The menu schema maps each column name to its default, so a
    name occurs once; a menu row maps column names to values. */
module Db {
  import Sql

  /** A column default: none (NULL), a constant, or `datetime('now')`. */
  datatype Default = NoDefault | Const(value: Sql.Value) | CurrentTime

  datatype Column = Column(name: string, default: Default)

  type Schema = map<string, Default>

  type Row = map<string, Sql.Value>

  /** The four columns the migration checks for. */
  predicate HasMigratedColumns(names: set<string>) {
    "createdAt" in names && "updatedAt" in names && "categoryId" in names && "isAvailable" in names
  }

  // ---------------------------------------------------------------- schema

  /** The columns of `menu` as CREATE TABLE declares them; `DEFAULT true` is stored as 1. */
  const MenuColumns: Schema := map[
    "id" := NoDefault, "name" := NoDefault, "price" := NoDefault,
    "details" := NoDefault, "image" := NoDefault,
    "isAvailable" := Const(Sql.Int(1)),
    "createdAt" := CurrentTime, "updatedAt" := CurrentTime,
    "categoryId" := NoDefault]

  /** The columns the migration adds, as ALTER TABLE declares them. */
  const CreatedAtColumn := Column("createdAt", NoDefault)
  const UpdatedAtColumn := Column("updatedAt", NoDefault)
  const CategoryIdColumn := Column("categoryId", NoDefault)
  const IsAvailableColumn := Column("isAvailable", Const(Sql.Int(1)))

  /** The default categories. */
  const Seeds: seq<string> := ["Drinks", "Food", "Desserts"]

  /** `if (!columnNames.includes(c)) ALTER TABLE menu ADD COLUMN c`. A column
      the schema has already is kept as it is; the migration lists every
      column of the schema, so that case only guards the definition. */
  function AddIfMissing(cols: Schema, present: set<string>, c: Column): (r: Schema)
    ensures c.name in present ==> r == cols
    ensures c.name in cols ==> r == cols
    ensures c.name !in present && c.name !in cols ==> r == cols[c.name := c.default]
    ensures c.name in present || c.name in r.Keys
    ensures cols.Keys <= r.Keys
    ensures forall n :: n in cols ==> r[n] == cols[n]
  {
    if c.name in present || c.name in cols then cols else cols[c.name := c.default]
  }

  /** The menu schema after the migration, when the PRAGMA listed `present`. */
  function MigratedColumns(cols: Schema, present: set<string>): (r: Schema)
    requires present <= cols.Keys
    ensures HasMigratedColumns(r.Keys)
    ensures forall n :: n in cols ==> n in r && r[n] == cols[n]
  {
    var c1 := AddIfMissing(cols, present, CreatedAtColumn);
    var c2 := AddIfMissing(c1, present, UpdatedAtColumn);
    var c3 := AddIfMissing(c2, present, CategoryIdColumn);
    AddIfMissing(c3, present, IsAvailableColumn)
  }

  /** A migration over a menu that has the four columns adds none. */
  lemma MigrationIdempotent(cols: Schema)
    requires HasMigratedColumns(cols.Keys)
    ensures MigratedColumns(cols, cols.Keys) == cols
  {
  }

  /** A missing column is added with the declaration ALTER TABLE gives it:
      createdAt without a default, isAvailable defaulting to 1. */
  lemma MigratedDeclarations(cols: Schema)
    ensures "createdAt" !in cols ==> MigratedColumns(cols, cols.Keys)["createdAt"] == NoDefault
    ensures "isAvailable" !in cols ==> MigratedColumns(cols, cols.Keys)["isAvailable"] == Const(Sql.Int(1))
  {
  }

  // ------------------------------------------------------------------ rows

  /** What an existing row holds in a column added with `d` as its default. */
  function Initial(d: Default): Sql.Value {
    match d
    case Const(v) => v
    case _ => Sql.Null
  }

  /** ALTER TABLE ADD COLUMN: every existing row gains the column, holding its default. */
  function Widen(rows: map<int, Row>, c: Column): (r: map<int, Row>)
    ensures r.Keys == rows.Keys
    ensures forall id :: id in r ==> r[id] == rows[id][c.name := Initial(c.default)]
  {
    map id | id in rows :: rows[id][c.name := Initial(c.default)]
  }

  /** The row `row` after `SET name = datetime('now') WHERE name IS NULL`. */
  function Stamp(row: Row, name: string, now: string): Row {
    if name in row && row[name].Null? then row[name := Sql.Text(now)] else row
  }

  /** UPDATE menu SET `name` = datetime('now') WHERE `name` IS NULL. */
  function Backfill(rows: map<int, Row>, name: string, now: string): (r: map<int, Row>)
    ensures r.Keys == rows.Keys
    ensures forall id :: id in r ==> r[id] == Stamp(rows[id], name, now)
  {
    map id | id in rows :: Stamp(rows[id], name, now)
  }

  /** The backfill leaves every value that was set and fills every NULL, so a
      second backfill changes nothing. */
  lemma BackfillOnlyNulls(rows: map<int, Row>, name: string, now: string)
    ensures forall id :: id in rows && name in rows[id] && !rows[id][name].Null? ==>
      Backfill(rows, name, now)[id] == rows[id]
    ensures forall id :: id in rows && name in rows[id] && rows[id][name].Null? ==>
      Backfill(rows, name, now)[id] == rows[id][name := Sql.Text(now)]
    ensures Backfill(Backfill(rows, name, now), name, now) == Backfill(rows, name, now)
  {
    var once: map<int, Row> := Backfill(rows, name, now);
    forall id | id in once
      ensures Stamp(once[id], name, now) == once[id]
    {
    }
  }

  /** A timestamp column added to existing rows reads the migration's time on every row. */
  lemma AddedTimestampIsSet(rows: map<int, Row>, c: Column, now: string)
    requires c.default.NoDefault?
    ensures forall id :: id in rows ==> Backfill(Widen(rows, c), c.name, now)[id][c.name] == Sql.Text(now)
  {
  }

  /** Every row holds the time `now` in the column `name`. */
  predicate Stamped(rows: map<int, Row>, name: string, now: string) {
    forall id :: id in rows ==> name in rows[id] && rows[id][name] == Sql.Text(now)
  }

  /** A timestamp step of the migration: the column is added and backfilled
      unless the PRAGMA listed it. */
  function AddStamped(rows: map<int, Row>, present: set<string>, c: Column, now: string): (r: map<int, Row>)
    ensures r.Keys == rows.Keys
    ensures c.name !in present && c.default.NoDefault? ==> Stamped(r, c.name, now)
  {
    if c.name in present then rows else Backfill(Widen(rows, c), c.name, now)
  }

  /** A plain step of the migration: the column is added unless the PRAGMA listed it. */
  function AddPlain(rows: map<int, Row>, present: set<string>, c: Column): (r: map<int, Row>)
    ensures r.Keys == rows.Keys
  {
    if c.name in present then rows else Widen(rows, c)
  }

  /** The menu rows after the migration, when the PRAGMA listed `present`. */
  function MigratedRows(rows: map<int, Row>, present: set<string>, now: string): (r: map<int, Row>)
    ensures r.Keys == rows.Keys
  {
    var r1 := AddStamped(rows, present, CreatedAtColumn, now);
    var r2 := AddStamped(r1, present, UpdatedAtColumn, now);
    AddPlain(AddPlain(r2, present, CategoryIdColumn), present, IsAvailableColumn)
  }

  /** A later step of the migration, on another column, keeps a stamped column. */
  lemma StampedKept(rows: map<int, Row>, name: string, now: string, present: set<string>, c: Column, later: string)
    requires Stamped(rows, name, now) && c.name != name
    ensures Stamped(AddStamped(rows, present, c, later), name, now)
    ensures Stamped(AddPlain(rows, present, c), name, now)
  {
    if c.name !in present {
      var widened := Widen(rows, c);
      assert Stamped(widened, name, now);
      forall id | id in widened
        ensures Stamp(widened[id], c.name, later)[name] == Sql.Text(now)
      {
      }
    }
  }

  /** After the migration, every row holds the migration's time in each
      timestamp column the PRAGMA did not list. */
  lemma MigratedRowsStamped(rows: map<int, Row>, present: set<string>, now: string)
    ensures "createdAt" !in present ==> Stamped(MigratedRows(rows, present, now), "createdAt", now)
    ensures "updatedAt" !in present ==> Stamped(MigratedRows(rows, present, now), "updatedAt", now)
  {
    var r1 := AddStamped(rows, present, CreatedAtColumn, now);
    var r2 := AddStamped(r1, present, UpdatedAtColumn, now);
    var r3 := AddPlain(r2, present, CategoryIdColumn);
    if "createdAt" !in present {
      StampedKept(r1, "createdAt", now, present, UpdatedAtColumn, now);
      StampedKept(r2, "createdAt", now, present, CategoryIdColumn, now);
      StampedKept(r3, "createdAt", now, present, IsAvailableColumn, now);
    }
    if "updatedAt" !in present {
      StampedKept(r2, "updatedAt", now, present, CategoryIdColumn, now);
      StampedKept(r3, "updatedAt", now, present, IsAvailableColumn, now);
    }
  }

  /** The value a row inserted with `given` holds in the column `name` declared with `d`. */
  function Filled(name: string, d: Default, given: Row, id: int, now: string): Sql.Value {
    if name == "id" then Sql.Int(id)
    else if name in given then given[name]
    else match d
      case NoDefault => Sql.Null
      case Const(v) => v
      case CurrentTime => Sql.Text(now)
  }

  /** The row INSERT INTO menu stores: the given values, the new id, and each
      other column's default. */
  function NewRow(cols: Schema, given: Row, id: int, now: string): (r: Row)
    ensures r.Keys == cols.Keys
    ensures forall n :: n in cols && n != "id" && n in given ==> r[n] == given[n]
  {
    map n | n in cols :: Filled(n, cols[n], given, id, now)
  }

  /** On a menu created by db.js, a row inserted without them is available,
      gets the new id and is stamped with the insert time. */
  lemma CreatedMenuDefaults(given: Row, id: int, now: string)
    requires "isAvailable" !in given && "createdAt" !in given && "updatedAt" !in given
    ensures "id" in NewRow(MenuColumns, given, id, now) && NewRow(MenuColumns, given, id, now)["id"] == Sql.Int(id)
    ensures "isAvailable" in NewRow(MenuColumns, given, id, now)
      && NewRow(MenuColumns, given, id, now)["isAvailable"] == Sql.Int(1)
    ensures "createdAt" in NewRow(MenuColumns, given, id, now)
      && NewRow(MenuColumns, given, id, now)["createdAt"] == Sql.Text(now)
    ensures "updatedAt" in NewRow(MenuColumns, given, id, now)
      && NewRow(MenuColumns, given, id, now)["updatedAt"] == Sql.Text(now)
  {
  }

  /** On a migrated menu, isAvailable still defaults to 1, but the added
      createdAt has no default: a row inserted without it holds NULL. */
  lemma MigratedMenuDefaults(cols: Schema, given: Row, id: int, now: string)
    requires "isAvailable" !in cols && "createdAt" !in cols
    requires "isAvailable" !in given && "createdAt" !in given
    ensures "isAvailable" in NewRow(MigratedColumns(cols, cols.Keys), given, id, now)
      && NewRow(MigratedColumns(cols, cols.Keys), given, id, now)["isAvailable"] == Sql.Int(1)
    ensures "createdAt" in NewRow(MigratedColumns(cols, cols.Keys), given, id, now)
      && NewRow(MigratedColumns(cols, cols.Keys), given, id, now)["createdAt"] == Sql.Null
  {
  }

  // ------------------------------------------------------------ categories

  /** Category names are unique (`name TEXT NOT NULL UNIQUE`). */
  predicate UniqueNames(cats: map<int, string>) {
    forall a, b :: a in cats && b in cats && a != b ==> cats[a] != cats[b]
  }

  /** `b` holds every row of `a` unchanged. */
  predicate Extends(a: map<int, string>, b: map<int, string>) {
    forall id :: id in a ==> id in b && b[id] == a[id]
  }

  /** Some category row holds the name `name`. */
  predicate Named(cats: map<int, string>, name: string) {
    exists id :: id in cats && cats[id] == name
  }

  /** INSERT OR IGNORE of one VALUES row into an AUTOINCREMENT table: SQLite
      draws the next id before it checks the UNIQUE constraint, so a name
      already present adds no row but still uses up an id. */
  function InsertOrIgnore(cats: map<int, string>, lastId: int, name: string): (r: (map<int, string>, int))
    ensures r.1 == lastId + 1
    ensures Named(cats, name) ==> r.0 == cats
    ensures !Named(cats, name) ==> r.0 == cats[lastId + 1 := name]
  {
    if Named(cats, name) then (cats, lastId + 1) else (cats[lastId + 1 := name], lastId + 1)
  }

  /** One INSERT OR IGNORE keeps names unique and ids fresh, keeps every row,
      and leaves the name present. */
  lemma InsertOrIgnoreKeeps(cats: map<int, string>, lastId: int, name: string)
    requires 0 <= lastId && UniqueNames(cats) && Sql.IdsWithin(cats.Keys, lastId)
    ensures UniqueNames(InsertOrIgnore(cats, lastId, name).0)
    ensures Sql.IdsWithin(InsertOrIgnore(cats, lastId, name).0.Keys, InsertOrIgnore(cats, lastId, name).1)
    ensures lastId <= InsertOrIgnore(cats, lastId, name).1
    ensures Extends(cats, InsertOrIgnore(cats, lastId, name).0)
    ensures Named(InsertOrIgnore(cats, lastId, name).0, name)
  {
    var r := InsertOrIgnore(cats, lastId, name);
    if !Named(cats, name) {
      assert lastId + 1 in r.0 && r.0[lastId + 1] == name;
    }
  }

  /** The multi-row INSERT OR IGNORE, one VALUES row after the other. */
  function SeedAll(cats: map<int, string>, lastId: int, names: seq<string>): (map<int, string>, int)
    decreases |names|
  {
    if names == [] then (cats, lastId)
    else
      var next := InsertOrIgnore(cats, lastId, names[0]);
      SeedAll(next.0, next.1, names[1..])
  }

  /** A name held by a row stays held once the rows are extended. */
  lemma ExtendsValues(a: map<int, string>, b: map<int, string>, v: string)
    requires Extends(a, b) && Named(a, v)
    ensures Named(b, v)
  {
  }

  /** Extending is transitive. */
  lemma ExtendsTrans(a: map<int, string>, b: map<int, string>, c: map<int, string>)
    requires Extends(a, b) && Extends(b, c)
    ensures Extends(a, c)
  {
  }

  /** Seeding keeps names unique and ids fresh, keeps every category, and adds every seed. */
  lemma {:induction false} SeedAllKeeps(cats: map<int, string>, lastId: int, names: seq<string>)
    requires 0 <= lastId && UniqueNames(cats) && Sql.IdsWithin(cats.Keys, lastId)
    ensures UniqueNames(SeedAll(cats, lastId, names).0)
    ensures Sql.IdsWithin(SeedAll(cats, lastId, names).0.Keys, SeedAll(cats, lastId, names).1)
    ensures SeedAll(cats, lastId, names).1 == lastId + |names|
    ensures Extends(cats, SeedAll(cats, lastId, names).0)
    ensures forall i :: 0 <= i < |names| ==> Named(SeedAll(cats, lastId, names).0, names[i])
    decreases |names|
  {
    if names != [] {
      var next := InsertOrIgnore(cats, lastId, names[0]);
      InsertOrIgnoreKeeps(cats, lastId, names[0]);
      SeedAllKeeps(next.0, next.1, names[1..]);
      var r := SeedAll(cats, lastId, names);
      assert r == SeedAll(next.0, next.1, names[1..]);
      ExtendsValues(next.0, r.0, names[0]);
      ExtendsTrans(cats, next.0, r.0);
      forall i | 1 <= i < |names|
        ensures Named(r.0, names[i])
      {
        assert names[1..][i - 1] == names[i];
      }
    }
  }

  /** Seeding names that are all present already adds no category, but the
      id counter still moves past one id per name. */
  lemma {:induction false} SeedAllPresent(cats: map<int, string>, lastId: int, names: seq<string>)
    requires forall i :: 0 <= i < |names| ==> Named(cats, names[i])
    ensures SeedAll(cats, lastId, names) == (cats, lastId + |names|)
    decreases |names|
  {
    if names != [] {
      assert forall i :: 0 <= i < |names| - 1 ==> names[1..][i] == names[i + 1];
      SeedAllPresent(cats, lastId + 1, names[1..]);
    }
  }

  /** Seeding twice leaves the categories of seeding once; only the counter
      has moved on, by one per seed. */
  lemma SeedIdempotent(cats: map<int, string>, lastId: int)
    requires 0 <= lastId && UniqueNames(cats) && Sql.IdsWithin(cats.Keys, lastId)
    ensures SeedAll(SeedAll(cats, lastId, Seeds).0, SeedAll(cats, lastId, Seeds).1, Seeds).0 == SeedAll(cats, lastId, Seeds).0
    ensures SeedAll(SeedAll(cats, lastId, Seeds).0, SeedAll(cats, lastId, Seeds).1, Seeds).1 == SeedAll(cats, lastId, Seeds).1 + |Seeds|
  {
    SeedAllKeeps(cats, lastId, Seeds);
    var once := SeedAll(cats, lastId, Seeds);
    SeedAllPresent(once.0, once.1, Seeds);
  }

  // -------------------------------------------------------------- the file

  class Database {
    var tables: set<string>
    var menuColumns: Schema
    var menuRows: map<int, Row>
    var lastMenuId: int
    var categories: map<int, string>
    var lastCategoryId: int

    ghost predicate Valid()
      reads this
    {
      && ("menu" !in tables ==> menuColumns == map[] && menuRows == map[])
      && ("categories" !in tables ==> categories == map[])
      && (forall id :: id in menuRows ==> menuRows[id].Keys == menuColumns.Keys)
      && 0 <= lastMenuId && Sql.IdsWithin(menuRows.Keys, lastMenuId)
      && 0 <= lastCategoryId && Sql.IdsWithin(categories.Keys, lastCategoryId)
      && UniqueNames(categories)
    }

    /** Every table exists, the menu has the migrated columns and the default categories are in. */
    ghost predicate Settled()
      reads this
    {
      && {"categories", "menu", "sales"} <= tables
      && HasMigratedColumns(menuColumns.Keys)
      && forall i :: 0 <= i < |Seeds| ==> Named(categories, Seeds[i])
    }

    /** A database file: the tables it has, and the menu schema and rows an
        earlier version may have left. */
    constructor (tables: set<string>, menuColumns: Schema, menuRows: map<int, Row>, lastMenuId: int,
                 categories: map<int, string>, lastCategoryId: int)
      requires "menu" !in tables ==> menuColumns == map[] && menuRows == map[]
      requires "categories" !in tables ==> categories == map[]
      requires forall id :: id in menuRows ==> menuRows[id].Keys == menuColumns.Keys
      requires 0 <= lastMenuId && Sql.IdsWithin(menuRows.Keys, lastMenuId)
      requires 0 <= lastCategoryId && Sql.IdsWithin(categories.Keys, lastCategoryId) && UniqueNames(categories)
      ensures Valid()
      ensures this.tables == tables && this.menuColumns == menuColumns && this.menuRows == menuRows
      ensures this.lastMenuId == lastMenuId && this.categories == categories && this.lastCategoryId == lastCategoryId
    {
      this.tables := tables;
      this.menuColumns := menuColumns;
      this.menuRows := menuRows;
      this.lastMenuId := lastMenuId;
      this.categories := categories;
      this.lastCategoryId := lastCategoryId;
    }

    /** The three CREATE TABLE IF NOT EXISTS statements. */
    method CreateTables()
      requires Valid()
      modifies this`tables, this`menuColumns
      ensures Valid()
      ensures tables == old(tables) + {"categories", "menu", "sales"}
      ensures menuColumns == if "menu" in old(tables) then old(menuColumns) else MenuColumns
    {
      if "menu" !in tables {
        menuColumns := MenuColumns;
      }
      tables := tables + {"categories", "menu", "sales"};
    }

    /** ALTER TABLE menu ADD COLUMN, for a column the menu lacks. */
    method AddColumn(c: Column)
      requires Valid() && "menu" in tables && c.name !in menuColumns
      modifies this`menuColumns, this`menuRows
      ensures Valid()
      ensures menuColumns == old(menuColumns)[c.name := c.default]
      ensures menuRows == Widen(old(menuRows), c)
    {
      menuRows := Widen(menuRows, c);
      menuColumns := menuColumns[c.name := c.default];
    }

    /** ALTER TABLE then the backfill UPDATE, for a missing timestamp column. */
    method AddTimestamp(c: Column, now: string)
      requires Valid() && "menu" in tables && c.name !in menuColumns
      modifies this`menuColumns, this`menuRows
      ensures Valid()
      ensures menuColumns == old(menuColumns)[c.name := c.default]
      ensures menuRows == Backfill(Widen(old(menuRows), c), c.name, now)
    {
      AddColumn(c);
      menuRows := Backfill(menuRows, c.name, now);
    }

    /** The PRAGMA-driven migration: each of the four columns missing from the
        listed names is added, and a missing timestamp is backfilled. */
    method MigrateMenu(now: string)
      requires Valid() && "menu" in tables
      modifies this`menuColumns, this`menuRows
      ensures Valid()
      ensures menuColumns == MigratedColumns(old(menuColumns), old(menuColumns).Keys)
      ensures menuRows == MigratedRows(old(menuRows), old(menuColumns).Keys, now)
    {
      var names := menuColumns.Keys;
      if "createdAt" !in names {
        AddTimestamp(CreatedAtColumn, now);
      }
      assert menuColumns == AddIfMissing(old(menuColumns), names, CreatedAtColumn);
      if "updatedAt" !in names {
        AddTimestamp(UpdatedAtColumn, now);
      }
      if "categoryId" !in names {
        AddColumn(CategoryIdColumn);
      }
      if "isAvailable" !in names {
        AddColumn(IsAvailableColumn);
      }
    }

    /** The INSERT OR IGNORE of the default categories, one VALUES row at a time. */
    method SeedCategories()
      requires Valid() && "categories" in tables
      modifies this`categories, this`lastCategoryId
      ensures Valid()
      ensures (categories, lastCategoryId) == SeedAll(old(categories), old(lastCategoryId), Seeds)
    {
      var i := 0;
      while i < |Seeds|
        invariant 0 <= i <= |Seeds|
        invariant Valid()
        invariant SeedAll(categories, lastCategoryId, Seeds[i..]) == SeedAll(old(categories), old(lastCategoryId), Seeds)
      {
        InsertOrIgnoreKeeps(categories, lastCategoryId, Seeds[i]);
        var next := InsertOrIgnore(categories, lastCategoryId, Seeds[i]);
        assert Seeds[i..][1..] == Seeds[i + 1..];
        categories, lastCategoryId := next.0, next.1;
        i := i + 1;
      }
    }

    /** The CREATE TABLE statements, then the migration once
        `PRAGMA table_info(menu)` answered (`schemaRead`). */
    method Prepare(now: string, schemaRead: bool)
      requires Valid()
      modifies this`tables, this`menuColumns, this`menuRows
      ensures Valid()
      ensures tables == old(tables) + {"categories", "menu", "sales"}
      ensures var created := if "menu" in old(tables) then old(menuColumns) else MenuColumns;
        && menuColumns == (if schemaRead then MigratedColumns(created, created.Keys) else created)
        && menuRows == (if schemaRead then MigratedRows(old(menuRows), created.Keys, now) else old(menuRows))
      ensures schemaRead ==> HasMigratedColumns(menuColumns.Keys)
      ensures old(Settled()) ==> tables == old(tables) && menuColumns == old(menuColumns) && menuRows == old(menuRows)
    {
      CreateTables();
      if schemaRead {
        if old(Settled()) {
          MigrationIdempotent(menuColumns);
        }
        MigrateMenu(now);
      }
    }

    /** The connection callback of db.js: the tables, the migration, then
        the default categories. */
    method Open(now: string, schemaRead: bool)
      requires Valid()
      modifies this`tables, this`menuColumns, this`menuRows, this`categories, this`lastCategoryId
      ensures Valid()
      ensures tables == old(tables) + {"categories", "menu", "sales"}
      ensures var created := if "menu" in old(tables) then old(menuColumns) else MenuColumns;
        && menuColumns == (if schemaRead then MigratedColumns(created, created.Keys) else created)
        && menuRows == (if schemaRead then MigratedRows(old(menuRows), created.Keys, now) else old(menuRows))
      ensures (categories, lastCategoryId) == SeedAll(old(categories), old(lastCategoryId), Seeds)
      ensures schemaRead ==> Settled()
      ensures Extends(old(categories), categories)
      ensures old(Settled()) ==>
        tables == old(tables) && menuColumns == old(menuColumns) && menuRows == old(menuRows)
        && categories == old(categories) && lastCategoryId == old(lastCategoryId) + |Seeds|
    {
      ghost var settled := Settled();
      Prepare(now, schemaRead);
      SeedAllKeeps(categories, lastCategoryId, Seeds);
      if settled {
        SeedAllPresent(categories, lastCategoryId, Seeds);
      }
      SeedCategories();
    }

    /** INSERT INTO menu: a fresh id and the column defaults. */
    method InsertMenu(given: Row, now: string) returns (id: int)
      requires Valid() && "menu" in tables
      modifies this`menuRows, this`lastMenuId
      ensures Valid()
      ensures id == lastMenuId == old(lastMenuId) + 1 && id !in old(menuRows)
      ensures menuRows == old(menuRows)[id := NewRow(menuColumns, given, id, now)]
    {
      lastMenuId := lastMenuId + 1;
      id := lastMenuId;
      menuRows := menuRows[id := NewRow(menuColumns, given, id, now)];
    }
  }
}
