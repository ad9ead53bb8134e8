/** Opening a database: creating what is missing and migrating what is old, restartable at every
    statement. */
module Migration {
  import opened Messages
  import opened Tables

  // ---------------------------------------------------------------- databases of any age

  /** A config row together with the column that versioning moved elsewhere. */
  datatype OldConfig = OldConfig(row: ConfigRow, contentSize: nat)

  /** The config table: which of the optional columns it has, and its rows. A column the table lacks
      reads as its default. */
  datatype ConfigShape = ConfigShape(hasSize: bool, hasCreated: bool, hasUpdated: bool, hasCurrent: bool, rows: map<int, OldConfig>)

  /** The config_content table. Before versioning it had no config_id: a row's id was its config's. */
  datatype ContentShape = ContentShape(hasConfigId: bool, hasSize: bool, hasCreated: bool, hasUpdated: bool, rows: map<int, ContentRow>)

  datatype Object = InodeTable | DirectoryTable | ConfigAclTable | ConfigAclIndex | DirectoryAclTable | DirectoryAclIndex | ContentIndex

  datatype Database = Database(objects: set<Object>, config: Option<ConfigShape>, content: Option<ContentShape>)

  const NEW_CONFIG := ConfigShape(false, true, true, true, map[])
  const NEW_CONTENT := ContentShape(true, true, true, true, map[])
  const NO_DATABASE := Database({}, None, None)

  // ---------------------------------------------------------------- statements

  datatype Column = ConfigCreated | ConfigUpdated | ContentCreated | ContentUpdated | ConfigCurrent

  /** One unit that commits by itself: a statement, or a migration that runs as a transaction. */
  datatype Unit = CreateObject(object: Object) | CreateConfig | CreateContent | Add(column: Column) | Backfill | SplitVersions | MoveSize

  const SCRIPT: seq<Unit> := [
    CreateObject(InodeTable), CreateConfig, CreateObject(DirectoryTable), CreateContent,
    CreateObject(ConfigAclTable), CreateObject(ConfigAclIndex), CreateObject(DirectoryAclTable), CreateObject(DirectoryAclIndex),
    Add(ConfigCreated), Add(ConfigUpdated), Add(ContentCreated), Add(ContentUpdated), Add(ConfigCurrent), Backfill,
    SplitVersions, MoveSize, CreateObject(ContentIndex)]

  /** ADD COLUMN; on a table that has it the "duplicate column name" error is ignored. */
  function AddColumn(db: Database, column: Column): Option<Database> {
    if db.config.None? || db.content.None? then None
    else
      match column
      case ConfigCreated => Some(db.(config := Some(db.config.value.(hasCreated := true))))
      case ConfigUpdated => Some(db.(config := Some(db.config.value.(hasUpdated := true))))
      case ConfigCurrent => Some(db.(config := Some(db.config.value.(hasCurrent := true))))
      case ContentCreated => Some(db.(content := Some(db.content.value.(hasCreated := true))))
      case ContentUpdated => Some(db.(content := Some(db.content.value.(hasUpdated := true))))
  }

  /** UPDATE config SET current_content_id = id WHERE current_content_id IS NULL */
  function BackfillCurrent(config: ConfigShape): ConfigShape {
    config.(rows := map c | c in config.rows ::
      if config.rows[c].row.current.None? then config.rows[c].(row := config.rows[c].row.(current := Some(c))) else config.rows[c])
  }

  /** The rebuilt table: every row's config is the one whose id it shares. */
  function Rebuilt(content: ContentShape): ContentShape {
    ContentShape(true, false, true, true,
                 map v | v in content.rows :: content.rows[v].(configId := v, size := 0))
  }

  /** Sizes move to the versions, computed from the content. */
  function Sized(content: ContentShape): ContentShape {
    content.(hasSize := true, rows := map v | v in content.rows :: content.rows[v].(size := |content.rows[v].content|))
  }

  function Unsized(config: ConfigShape): ConfigShape {
    config.(hasSize := false, rows := map c | c in config.rows :: config.rows[c].(contentSize := 0))
  }

  /** What a unit does, or None when it fails and NewStore gives up. */
  function Exec(db: Database, u: Unit): Option<Database> {
    match u
    case CreateObject(o) => Some(db.(objects := db.objects + {o}))
    case CreateConfig => Some(if db.config.Some? then db else db.(config := Some(NEW_CONFIG)))
    case CreateContent => Some(if db.content.Some? then db else db.(content := Some(NEW_CONTENT)))
    case Add(column) => AddColumn(db, column)
    case Backfill =>
      if db.config.None? || !db.config.value.hasCurrent then None
      else Some(db.(config := Some(BackfillCurrent(db.config.value))))
    case SplitVersions =>
      if db.content.None? || db.config.None? then None
      else if db.content.value.hasConfigId then Some(db)
      else if !db.content.value.hasCreated || !db.content.value.hasUpdated then None
      else if !(db.content.value.rows.Keys <= db.config.value.rows.Keys) then None
      else Some(db.(content := Some(Rebuilt(db.content.value))))
    case MoveSize =>
      if db.content.None? || db.config.None? then None
      else if db.content.value.hasSize then Some(db)
      else if !db.config.value.hasSize then None
      else Some(db.(content := Some(Sized(db.content.value)), config := Some(Unsized(db.config.value))))
  }

  /** NewStore stopped after n units. */
  function Opened(db: Database, n: nat): Option<Database>
    requires n <= |SCRIPT|
  {
    if n == 0 then Some(db)
    else
      match Opened(db, n - 1)
      case None => None
      case Some(d) => Exec(d, SCRIPT[n - 1])
  }

  // ---------------------------------------------------------------- well-formed databases

  /** Columns a table lacks read as their defaults. */
  ghost predicate ConfigDefaults(config: ConfigShape) {
    forall c :: c in config.rows ==>
      && (!config.hasSize ==> config.rows[c].contentSize == 0)
      && (!config.hasCreated ==> config.rows[c].row.createdAt == 0)
      && (!config.hasUpdated ==> config.rows[c].row.updatedAt == 0)
      && (!config.hasCurrent ==> config.rows[c].row.current == None)
  }

  ghost predicate ContentDefaults(content: ContentShape) {
    forall v :: v in content.rows ==>
      && (!content.hasConfigId ==> content.rows[v].configId == 0)
      && (!content.hasSize ==> content.rows[v].size == 0)
      && (!content.hasCreated ==> content.rows[v].createdAt == 0)
      && (!content.hasUpdated ==> content.rows[v].updatedAt == 0)
  }

  /** The configs as the store reads them. */
  ghost function ConfigRows(config: ConfigShape): ConfigTable {
    map c | c in config.rows :: config.rows[c].row
  }

  ghost predicate Versioned(config: ConfigShape, content: ContentShape) {
    && (forall v :: v in content.rows ==> content.rows[v].configId in config.rows)
    && (forall c :: c in config.rows ==> CurrentOk(ConfigRows(config), content.rows, c))
  }

  /** One content row per config, sharing its id; the current version, where recorded, is that row. */
  ghost predicate OneToOne(config: ConfigShape, content: ContentShape) {
    && content.rows.Keys == config.rows.Keys
    && forall c :: c in config.rows ==> config.rows[c].row.current == None || config.rows[c].row.current == Some(c)
  }

  /** Databases any earlier release, or an interrupted migration, may have left. */
  ghost predicate WellFormed(db: Database) {
    match (db.config, db.content)
    case (None, None) => true
    case (None, Some(_)) => false
    case (Some(config), None) => config == NEW_CONFIG
    case (Some(config), Some(content)) =>
      && ConfigDefaults(config) && ContentDefaults(content)
      && (content.hasSize <==> !config.hasSize)
      && (content.hasSize ==> content.hasConfigId)
      && (if content.hasConfigId
          then config.hasCreated && config.hasUpdated && config.hasCurrent && content.hasCreated && content.hasUpdated && Versioned(config, content)
          else OneToOne(config, content))
  }

  // ---------------------------------------------------------------- the final state

  ghost function FinalConfig(config: ConfigShape): ConfigShape {
    ConfigShape(false, true, true, true,
      map c | c in config.rows :: OldConfig(config.rows[c].row.(current := if config.rows[c].row.current.None? then Some(c) else config.rows[c].row.current), 0))
  }

  ghost function FinalContent(content: ContentShape): ContentShape {
    ContentShape(true, true, true, true,
      map v | v in content.rows ::
        content.rows[v].(configId := if content.hasConfigId then content.rows[v].configId else v,
                         size := if content.hasSize then content.rows[v].size else |content.rows[v].content|))
  }

  const ALL_OBJECTS := {InodeTable, DirectoryTable, ConfigAclTable, ConfigAclIndex, DirectoryAclTable, DirectoryAclIndex, ContentIndex}

  /** What opening a database makes of it. */
  ghost function Final(db: Database): Database {
    Database(db.objects + ALL_OBJECTS,
             Some(if db.config.Some? then FinalConfig(db.config.value) else NEW_CONFIG),
             Some(if db.content.Some? then FinalContent(db.content.value) else NEW_CONTENT))
  }

  /** The effect of a unit holds. */
  ghost predicate Achieved(db: Database, u: Unit) {
    match u
    case CreateObject(o) => o in db.objects
    case CreateConfig => db.config.Some?
    case CreateContent => db.content.Some?
    case Add(ConfigCreated) => db.config.Some? && db.config.value.hasCreated
    case Add(ConfigUpdated) => db.config.Some? && db.config.value.hasUpdated
    case Add(ConfigCurrent) => db.config.Some? && db.config.value.hasCurrent
    case Add(ContentCreated) => db.content.Some? && db.content.value.hasCreated
    case Add(ContentUpdated) => db.content.Some? && db.content.value.hasUpdated
    case Backfill => db.config.Some? && forall c :: c in db.config.value.rows ==> db.config.value.rows[c].row.current.Some?
    case SplitVersions => db.content.Some? && db.content.value.hasConfigId
    case MoveSize => db.content.Some? && db.content.value.hasSize
  }

  ghost predicate AchievedUpTo(db: Database, n: nat)
    requires n <= |SCRIPT|
  {
    forall i :: 0 <= i < n ==> Achieved(db, SCRIPT[i])
  }

  /** The units on which a unit relies. */
  ghost predicate Prepared(db: Database, u: Unit) {
    match u
    case CreateContent => db.config.Some?
    case Add(_) => db.config.Some? && db.content.Some?
    case Backfill => db.config.Some? && db.content.Some? && Achieved(db, Add(ConfigCurrent))
    case SplitVersions =>
      && db.config.Some? && db.content.Some? && Achieved(db, Backfill)
      && Achieved(db, Add(ConfigCreated)) && Achieved(db, Add(ConfigUpdated)) && Achieved(db, Add(ConfigCurrent))
      && Achieved(db, Add(ContentCreated)) && Achieved(db, Add(ContentUpdated))
    case MoveSize => db.config.Some? && db.content.Some? && Achieved(db, SplitVersions)
    case _ => true
  }

  lemma ScriptPrepares(db: Database, n: nat)
    requires n < |SCRIPT| && AchievedUpTo(db, n)
    ensures Prepared(db, SCRIPT[n])
  {
    if n > 1 { assert Achieved(db, SCRIPT[1]); }
    if n > 3 { assert Achieved(db, SCRIPT[3]); }
    if n > 12 {
      assert Achieved(db, SCRIPT[8]) && Achieved(db, SCRIPT[9]) && Achieved(db, SCRIPT[10]);
      assert Achieved(db, SCRIPT[11]) && Achieved(db, SCRIPT[12]);
    }
    if n > 13 { assert Achieved(db, SCRIPT[13]); }
    if n > 14 { assert Achieved(db, SCRIPT[14]); }
  }

  // ---------------------------------------------------------------- one unit

  ghost predicate GoodStep(db: Database, u: Unit) {
    match Exec(db, u)
    case None => false
    case Some(d) => WellFormed(d) && Achieved(d, u) && Final(d) == Final(db)
  }

  lemma AllObjects(o: Object)
    ensures o in ALL_OBJECTS
  {
    match o
    case InodeTable =>
    case DirectoryTable =>
    case ConfigAclTable =>
    case ConfigAclIndex =>
    case DirectoryAclTable =>
    case DirectoryAclIndex =>
    case ContentIndex =>
  }

  lemma CreateStep(db: Database, u: Unit)
    requires WellFormed(db) && Prepared(db, u) && (u.CreateObject? || u.CreateConfig? || u.CreateContent?)
    ensures GoodStep(db, u)
  {
    var d := Exec(db, u).value;
    match u
    case CreateObject(o) =>
      AllObjects(o);
      assert d.objects + ALL_OBJECTS == db.objects + ALL_OBJECTS;
    case CreateConfig => assert FinalConfig(NEW_CONFIG) == NEW_CONFIG;
    case CreateContent =>
      assert FinalContent(NEW_CONTENT) == NEW_CONTENT;
  }

  lemma AddStep(db: Database, column: Column)
    requires WellFormed(db) && Prepared(db, Add(column))
    ensures GoodStep(db, Add(column))
  {
    var d := Exec(db, Add(column)).value;
    assert FinalConfig(d.config.value) == FinalConfig(db.config.value);
    assert FinalContent(d.content.value) == FinalContent(db.content.value);
    assert ConfigRows(d.config.value) == ConfigRows(db.config.value);
  }

  lemma BackfillStep(db: Database)
    requires WellFormed(db) && Prepared(db, Backfill)
    ensures GoodStep(db, Backfill)
  {
    var d := Exec(db, Backfill).value;
    assert FinalConfig(d.config.value) == FinalConfig(db.config.value);
    if db.content.value.hasConfigId {
      forall c | c in db.config.value.rows
        ensures db.config.value.rows[c].row.current.Some?
      {
        assert CurrentOk(ConfigRows(db.config.value), db.content.value.rows, c);
      }
      assert d.config.value.rows == db.config.value.rows;
    }
  }

  lemma SplitStep(db: Database)
    requires WellFormed(db) && Prepared(db, SplitVersions)
    ensures GoodStep(db, SplitVersions)
  {
    if !db.content.value.hasConfigId {
      var d := Exec(db, SplitVersions).value;
      assert FinalContent(d.content.value) == FinalContent(db.content.value);
      forall c | c in d.config.value.rows
        ensures CurrentOk(ConfigRows(d.config.value), d.content.value.rows, c)
      {
        assert d.config.value.rows[c].row.current == Some(c);
      }
    }
  }

  lemma MoveSizeStep(db: Database)
    requires WellFormed(db) && Prepared(db, MoveSize)
    ensures GoodStep(db, MoveSize)
  {
    if !db.content.value.hasSize {
      var d := Exec(db, MoveSize).value;
      assert FinalConfig(d.config.value) == FinalConfig(db.config.value);
      assert FinalContent(d.content.value) == FinalContent(db.content.value);
      assert ConfigRows(d.config.value) == ConfigRows(db.config.value);
      forall c | c in d.config.value.rows
        ensures CurrentOk(ConfigRows(d.config.value), d.content.value.rows, c)
      {
        assert CurrentOk(ConfigRows(db.config.value), db.content.value.rows, c);
      }
    }
  }

  /** Every unit, run when its turn comes, succeeds, keeps the database well-formed and leaves the final
      state it is heading for the same. */
  lemma UnitStep(db: Database, u: Unit)
    requires WellFormed(db) && Prepared(db, u)
    ensures GoodStep(db, u)
  {
    match u
    case Add(column) => AddStep(db, column);
    case Backfill => BackfillStep(db);
    case SplitVersions => SplitStep(db);
    case MoveSize => MoveSizeStep(db);
    case _ => CreateStep(db, u);
  }

  /** What one unit achieved no other undoes. */
  lemma AchievementsStay(db: Database, u: Unit, other: Unit)
    requires WellFormed(db) && Exec(db, u).Some? && Achieved(db, other)
    ensures Achieved(Exec(db, u).value, other)
  {
  }

  // ---------------------------------------------------------------- whole runs

  lemma {:induction false} OpenedKeeps(db: Database, n: nat)
    requires WellFormed(db) && n <= |SCRIPT|
    ensures match Opened(db, n)
            case None => false
            case Some(d) => WellFormed(d) && AchievedUpTo(d, n) && Final(d) == Final(db)
  {
    if n > 0 {
      OpenedKeeps(db, n - 1);
      var d := Opened(db, n - 1).value;
      ScriptPrepares(d, n - 1);
      UnitStep(d, SCRIPT[n - 1]);
      forall i | 0 <= i < n - 1
        ensures Achieved(Opened(db, n).value, SCRIPT[i])
      {
        AchievementsStay(d, SCRIPT[n - 1], SCRIPT[i]);
      }
    }
  }

  lemma RowsAreFinal(config: ConfigShape, content: ContentShape)
    requires WellFormed(Database({}, Some(config), Some(content))) && content.hasSize
    requires forall c :: c in config.rows ==> config.rows[c].row.current.Some?
    ensures config == FinalConfig(config) && content == FinalContent(content)
  {
    forall c | c in config.rows
      ensures config.rows[c] == FinalConfig(config).rows[c]
    {
      assert config.rows[c].contentSize == 0;
    }
    assert config.rows == FinalConfig(config).rows;
    forall v | v in content.rows
      ensures content.rows[v] == FinalContent(content).rows[v]
    {
      assert content.hasConfigId && content.hasSize;
    }
    assert content.rows == FinalContent(content).rows;
  }

  /** A database on which everything is achieved is its own final state. */
  lemma AchievedIsFinal(db: Database)
    requires WellFormed(db) && AchievedUpTo(db, |SCRIPT|)
    ensures db == Final(db)
  {
    assert Achieved(db, SCRIPT[0]) && Achieved(db, SCRIPT[2]) && Achieved(db, SCRIPT[4]) && Achieved(db, SCRIPT[5]);
    assert Achieved(db, SCRIPT[6]) && Achieved(db, SCRIPT[7]) && Achieved(db, SCRIPT[16]);
    assert db.objects + ALL_OBJECTS == db.objects;
    assert Achieved(db, SCRIPT[1]) && Achieved(db, SCRIPT[3]) && Achieved(db, SCRIPT[13]);
    assert Achieved(db, SCRIPT[14]) && Achieved(db, SCRIPT[15]);
    RowsAreFinal(db.config.value, db.content.value);
  }

  /** A full run never fails and reaches the final state. */
  lemma OpeningReachesFinal(db: Database)
    requires WellFormed(db)
    ensures Opened(db, |SCRIPT|) == Some(Final(db))
  {
    OpenedKeeps(db, |SCRIPT|);
    AchievedIsFinal(Opened(db, |SCRIPT|).value);
  }

  /** Attempts that were each stopped at some point, one after the other. */
  ghost function Attempts(db: Database, stops: seq<nat>): Option<Database>
    requires forall i :: 0 <= i < |stops| ==> stops[i] <= |SCRIPT|
    decreases |stops|
  {
    if stops == [] then Some(db)
    else
      match Opened(db, stops[0])
      case None => None
      case Some(d) => Attempts(d, stops[1..])
  }

  /** Migration is restartable: however often and wherever it was stopped, a run that completes reaches
      the state one undisturbed run reaches, and another run changes nothing. */
  lemma {:induction false} MigrationRestartable(db: Database, stops: seq<nat>)
    requires WellFormed(db) && forall i :: 0 <= i < |stops| ==> stops[i] <= |SCRIPT|
    ensures match Attempts(db, stops)
            case None => false
            case Some(d) => Opened(d, |SCRIPT|) == Opened(db, |SCRIPT|) == Some(Final(db))
    ensures Opened(Final(db), |SCRIPT|) == Some(Final(db))
    decreases |stops|
  {
    OpeningReachesFinal(db);
    OpenedKeeps(db, |SCRIPT|);
    OpeningReachesFinal(Final(db));
    AchievedIsFinal(Final(db));
    if stops != [] {
      OpenedKeeps(db, stops[0]);
      MigrationRestartable(Opened(db, stops[0]).value, stops[1..]);
    }
  }

  /** Every config keeps its name, path and times, and its current version where it recorded one. */
  ghost predicate KeepsConfigs(old_: ConfigShape, new_: ConfigShape) {
    && new_.rows.Keys == old_.rows.Keys
    && forall c :: c in old_.rows ==>
         && new_.rows[c].row.(current := None) == old_.rows[c].row.(current := None)
         && (old_.rows[c].row.current.Some? ==> new_.rows[c].row.current == old_.rows[c].row.current)
  }

  /** Every content row keeps its bytes and times, its config where it named one, and its size where it
      had one; a row without a config belongs to the config whose id it shares, and a row without a
      size gets its length. */
  ghost predicate KeepsContents(old_: ContentShape, new_: ContentShape) {
    && new_.rows.Keys == old_.rows.Keys
    && forall v :: v in old_.rows ==>
         && new_.rows[v].content == old_.rows[v].content
         && new_.rows[v].createdAt == old_.rows[v].createdAt && new_.rows[v].updatedAt == old_.rows[v].updatedAt
         && new_.rows[v].configId == (if old_.hasConfigId then old_.rows[v].configId else v)
         && new_.rows[v].size == (if old_.hasSize then old_.rows[v].size else |old_.rows[v].content|)
  }

  /** The final state has the present schema, satisfies the version invariant of the store, and keeps
      every config and every byte of content; before versioning, a config's only row becomes its
      current version. */
  lemma MigrationPreserves(db: Database)
    requires WellFormed(db)
    ensures var config, content := Final(db).config.value, Final(db).content.value;
            && ALL_OBJECTS <= Final(db).objects
            && config.(rows := map[]) == NEW_CONFIG && content.(rows := map[]) == NEW_CONTENT
            && Versioned(config, content)
            && (db.config.Some? ==> KeepsConfigs(db.config.value, config))
            && (db.content.Some? ==>
                  && KeepsContents(db.content.value, content)
                  && (!db.content.value.hasConfigId ==> forall c :: c in config.rows ==> config.rows[c].row.current == Some(c)))
  {
    OpenedKeeps(db, |SCRIPT|);
    OpeningReachesFinal(db);
    FinalVersioned(Final(db));
  }

  lemma FinalVersioned(db: Database)
    requires WellFormed(db) && db.config.Some? && db.content.Some? && db.content.value.hasConfigId
    ensures Versioned(db.config.value, db.content.value)
  {
  }

  /** The ids of the content rows are inodes handed out so far. */
  ghost predicate ContentIdsUpTo(db: Database, last: nat) {
    db.content.Some? ==> forall v :: v in db.content.value.rows ==> 1 <= v <= last
  }

  /** The migrated rows satisfy the store's version invariant for whatever inodes the old ones did. */
  lemma MigratedVersionInv(db: Database, last: nat)
    requires WellFormed(db) && ContentIdsUpTo(db, last)
    ensures VersionInv(ConfigRows(Final(db).config.value), Final(db).content.value.rows, last)
  {
    MigrationPreserves(db);
  }

  /** With directories, places and entries in order, the migrated database satisfies the whole invariant,
      so that whatever is proved from it holds of the store opened on the database. */
  lemma MigratedInv(db: Database, dirs: DirectoryTable, configAcl: seq<AclRow>, directoryAcl: seq<AclRow>, last: nat)
    requires WellFormed(db) && ContentIdsUpTo(db, last) && TreeInv(dirs, last)
    requires db.config.Some? ==> ConfigInv(ConfigRows(db.config.value), dirs, last)
    requires AclInv(configAcl, if db.config.Some? then db.config.value.rows.Keys else {}) && AclInv(directoryAcl, dirs.Keys)
    ensures Inv(Tables(last, ConfigRows(Final(db).config.value), Final(db).content.value.rows, dirs, configAcl, directoryAcl))
  {
    MigratedVersionInv(db, last);
    if db.config.Some? {
      var was, rows := ConfigRows(db.config.value), ConfigRows(Final(db).config.value);
      assert rows.Keys == was.Keys;
      forall c | c in rows
        ensures rows[c].path == was[c].path && rows[c].name == was[c].name
      {
      }
    }
  }

  // ---------------------------------------------------------------- the loop

  lemma NextUnit(start: Database, db: Database, i: nat)
    requires WellFormed(start) && i < |SCRIPT| && Opened(start, i) == Some(db)
    ensures Exec(db, SCRIPT[i]).Some?
    ensures var d := Exec(db, SCRIPT[i]).value;
            Opened(start, i + 1) == Some(d) && WellFormed(d) && Final(d) == Final(start)
  {
    OpenedKeeps(start, i + 1);
  }

  /** The connection a store is opened on. */
  class Connection {
    var db: Database

    constructor (db: Database)
      ensures this.db == db
    {
      this.db := db;
    }

    /** NewStore, interrupted before unit number `stop` if there are that many. */
    method NewStore(stop: nat) returns (ok: bool)
      requires WellFormed(db)
      modifies this
      ensures WellFormed(db) && Final(db) == Final(old(db))
      ensures ok <==> stop >= |SCRIPT|
      ensures ok ==> db == Final(old(db))
    {
      ghost var start := db;
      OpeningReachesFinal(start);
      for i := 0 to |SCRIPT|
        invariant Opened(start, i) == Some(db) && i <= stop
        invariant WellFormed(db) && Final(db) == Final(start)
      {
        if i == stop {
          return false;
        }
        NextUnit(start, db, i);
        db := Exec(db, SCRIPT[i]).value;
      }
      return true;
    }
  }
}
