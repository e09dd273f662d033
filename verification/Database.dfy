/** DataBaseManager: one SQLite file per channel, opened on first use, one table per day. */
module Database {
  import opened Messages
  import opened Sequences
  import opened Order
  import opened Tables
  import opened Paths

  /** `path` is `getDbPath` once the directory is fixed. */
  datatype Config = Config(maxChannels: nat, limit: int, path: nat -> string)

  function ConfigFor(maxChannels: nat, limit: int, dir: string): Config {
    Config(maxChannels, limit, (channel: nat) => DbPath(dir, channel))
  }

  /** The database files by path; a file that does not exist holds no tables. */
  type Files = map<string, Tables>

  function TablesAt(files: Files, path: string): Tables {
    if path in files then files[path] else map[]
  }

  predicate HasChannel(cfg: Config, channel: int) { 1 <= channel <= cfg.maxChannels }

  function PathOf(cfg: Config, channel: int): string
    requires HasChannel(cfg, channel)
  {
    cfg.path(channel)
  }

  function ChannelTables(cfg: Config, files: Files, channel: int): Tables
    requires HasChannel(cfg, channel)
  {
    TablesAt(files, PathOf(cfg, channel))
  }

  /** The files after one `writeMessage`. */
  ghost function StoreWrite(cfg: Config, files: Files, m: Msg, connected: bool, f: Faults): Files {
    if !HasChannel(cfg, m.channel) || !connected then files
    else files[PathOf(cfg, m.channel) := Written(ChannelTables(cfg, files, m.channel), cfg.limit, m, f)]
  }

  /** The files after one `dropTable`. */
  function StoreDrop(cfg: Config, files: Files, channel: int, name: string, connected: bool, fails: bool): Files {
    if !HasChannel(cfg, channel) || !connected || fails then files
    else files[PathOf(cfg, channel) := ChannelTables(cfg, files, channel) - {name}]
  }

  /** A database file as its connections see it. */
  class SqliteFile {
    var tables: Tables

    constructor (found: Tables)
      ensures tables == found
    {
      tables := found;
    }
  }

  class DataBaseManager {
    const maxChannels: nat
    const maxTablesPerDb: int
    const getDbPath: nat -> string
    var dbHandles: seq<SqliteFile?>       // per channel, its open connection
    var disk: map<string, SqliteFile>     // the database files that exist, by path

    ghost predicate Valid()
      reads this
    {
      && |dbHandles| == maxChannels
      && (forall i :: 0 <= i < maxChannels && dbHandles[i] != null ==>
                        getDbPath(i + 1) in disk && disk[getDbPath(i + 1)] == dbHandles[i])
      && (forall p, q :: p in disk && q in disk && p != q ==> disk[p] != disk[q])
    }

    ghost function Cfg(): Config { Config(maxChannels, maxTablesPerDb, getDbPath) }

    /** The contents of all database files. */
    ghost function Contents(): Files
      reads this, disk.Values
    {
      map p | p in disk :: disk[p].tables
    }

    /** Whether a request for this channel gets a connection. */
    ghost predicate Opens(channel: int, f: Faults)
      requires Valid()
      reads this
    {
      HasChannel(Cfg(), channel) && (dbHandles[channel - 1] != null || !f.openFails)
    }

    /** `found` is what the database directory already holds. */
    constructor (maxChannels: nat, maxTablesPerDb: int, dbDir: string, found: map<string, SqliteFile>)
      requires forall p, q :: p in found && q in found && p != q ==> found[p] != found[q]
      ensures Valid() && Cfg() == ConfigFor(maxChannels, maxTablesPerDb, dbDir) && disk == found
      ensures forall i :: 0 <= i < maxChannels ==> dbHandles[i] == null
    {
      this.maxChannels, this.maxTablesPerDb := maxChannels, maxTablesPerDb;
      getDbPath := ConfigFor(maxChannels, maxTablesPerDb, dbDir).path;
      dbHandles := seq(maxChannels, _ => null);
      disk := found;
    }

    method GetDbHandle(channel: int, f: Faults) returns (db: SqliteFile?)
      requires Valid()
      modifies this
      ensures Valid() && fresh(disk.Values - old(disk.Values))
      ensures db != null <==> old(Opens(channel, f))
      ensures db == null ==> Contents() == old(Contents())
      ensures db != null ==>
                && PathOf(Cfg(), channel) in disk && disk[PathOf(Cfg(), channel)] == db == dbHandles[channel - 1]
                && db.tables == old(ChannelTables(Cfg(), Contents(), channel))
                && Contents() == old(Contents())[PathOf(Cfg(), channel) := db.tables]
      ensures forall i :: 0 <= i < maxChannels && old(dbHandles)[i] != null ==> dbHandles[i] == old(dbHandles)[i]
    {
      if channel < 1 || channel > maxChannels { return null; }
      var idx := channel - 1;
      if dbHandles[idx] != null { return dbHandles[idx]; }
      var dbPath := getDbPath(channel);
      if f.openFails { return null; }
      db := OpenFile(dbPath);
      dbHandles := dbHandles[idx := db];
    }

    /** SQLITE_OPEN_CREATE: a missing file comes into being, without tables. */
    method OpenFile(path: string) returns (db: SqliteFile)
      requires Valid()
      modifies this`disk
      ensures Valid() && fresh(disk.Values - old(disk.Values))
      ensures path in disk && disk[path] == db && db.tables == TablesAt(old(Contents()), path)
      ensures Contents() == old(Contents())[path := db.tables]
    {
      if path !in disk {
        var file := new SqliteFile(map[]);
        disk := disk[path := file];
      }
      return disk[path];
    }

    /** Each step of the query yields the next name in ascending order, until it is through or fails. */
    method GetAllTableNames(db: SqliteFile, f: Faults) returns (tables: seq<string>)
      ensures tables == Listing(db.tables.Keys, f)
    {
      tables := [];
      var rest := DayNames(db.tables.Keys);
      while rest != {} && (f.listed.None? || |tables| < f.listed.value)
        invariant tables + Sorted(rest) == Sorted(DayNames(db.tables.Keys))
        invariant f.listed.Some? ==> |tables| <= f.listed.value
        decreases rest
      {
        LeastExists(rest);
        var name :| IsLeast(name, rest);
        LeastIsFirst(rest, name);
        ConcatAssociative(tables, [name], Sorted(rest - {name}));
        tables := tables + [name];
        rest := rest - {name};
      }
    }

    method CleanOldTables(db: SqliteFile, f: Faults)
      modifies db
      ensures db.tables == Cleaned(old(db.tables), maxTablesPerDb, f)
    {
      var tables := GetAllTableNames(db, f);
      if maxTablesPerDb < 0 || |tables| <= maxTablesPerDb {
        NothingToDrop(db.tables, maxTablesPerDb, f);
        return;
      }
      CleanedIsDropEach(db.tables, maxTablesPerDb, f);
      ghost var t := db.tables;
      var toDelete := |tables| - maxTablesPerDb;
      for i := 0 to toDelete
        invariant db.tables == DropEach(t, tables[..i], f.dropFails)
      {
        DropEachOneMore(t, tables, f.dropFails, i);
        if tables[i] !in f.dropFails { db.tables := db.tables - {tables[i]}; }
      }
    }

    method CreateTable(db: SqliteFile, date: string, f: Faults) returns (ok: bool)
      modifies db
      ensures ok <==> !f.createFails
      ensures db.tables == if ok then Created(old(db.tables), date) else old(db.tables)
    {
      if f.createFails { return false; }
      if date !in db.tables { db.tables := db.tables[date := []]; }
      return true;
    }

    method EnsureTableExists(db: SqliteFile, date: string, f: Faults) returns (ok: bool)
      modifies db
      ensures ok <==> Ensured(old(db.tables), maxTablesPerDb, date, f).Some?
      ensures db.tables == if ok then Ensured(old(db.tables), maxTablesPerDb, date, f).value else old(db.tables)
    {
      if f.checkFails { return false; }
      var found := date in db.tables && !f.checkMisses;
      if !found {
        var created := CreateTable(db, date, f);
        if !created { return false; }
        CleanOldTables(db, f);
      }
      return true;
    }

    method InsertRow(db: SqliteFile, table: string, msg: Msg, reg: RegisterItem, fails: bool) returns (ok: bool)
      modifies db
      ensures ok <==> table in old(db.tables) && !fails
      ensures db.tables == if ok then old(db.tables)[table := old(db.tables)[table] + [RowOf(msg, reg)]]
                           else old(db.tables)
    {
      if table !in db.tables || fails { return false; }
      var row := Row(msg.id, msg.pduAddr, msg.pduFunc, CStr(msg.pduData), CStr(msg.timestamp),
                     reg.address, reg.mapAddr, reg.value, CStr(reg.description));
      db.tables := db.tables[table := db.tables[table] + [row]];
      return true;
    }

    /** The loop over the registers in `writeMessage`: a failing row does not stop the others. */
    method InsertRows(db: SqliteFile, date: string, msg: Msg, f: Faults) returns (ok: bool)
      modifies db
      ensures db.tables == Inserted(old(db.tables), date, msg, f.insertFails, |msg.registerMap|)
      ensures ok <==> (msg.registerMap == [] || date in old(db.tables))
                      && NoneFails(f.insertFails, |msg.registerMap|)
    {
      ok := true;
      ghost var t := db.tables;
      InsertedNone(t, date, msg, f.insertFails);
      for i := 0 to |msg.registerMap|
        invariant db.tables == Inserted(t, date, msg, f.insertFails, i)
        invariant ok <==> (i == 0 || date in t) && NoneFails(f.insertFails, i)
      {
        OneMoreFails(f.insertFails, i);
        InsertedOneMore(t, date, msg, f.insertFails, i);
        var inserted := InsertRow(db, date, msg, msg.registerMap[i], i in f.insertFails);
        if !inserted { ok := false; }
      }
    }

    /** A change to one file is a change of one entry. */
    twostate lemma OneFileChanged(p: string)
      requires Valid() && p in disk && unchanged(this)
      requires forall q :: q in disk && q != p ==> disk[q].tables == old(disk[q].tables)
      ensures Contents() == old(Contents())[p := disk[p].tables]
    {
    }

    /** `writeMessage` once it has its connection. */
    method WriteThrough(db: SqliteFile, ghost path: string, msg: Msg, f: Faults) returns (ok: bool)
      requires Valid() && path in disk && disk[path] == db
      modifies db
      ensures Valid()
      ensures Contents() == old(Contents())[path := Written(old(db.tables), maxTablesPerDb, msg, f)]
      ensures ok <==> WriteOk(old(db.tables), maxTablesPerDb, msg, f)
    {
      ok := WriteToTables(db, msg, f);
      OneFileChanged(path);
    }

    method WriteToTables(db: SqliteFile, msg: Msg, f: Faults) returns (ok: bool)
      modifies db
      ensures db.tables == Written(old(db.tables), maxTablesPerDb, msg, f)
      ensures ok <==> WriteOk(old(db.tables), maxTablesPerDb, msg, f)
      ensures forall name :: name in db.tables && (name !in old(db.tables) || db.tables[name] != old(db.tables)[name]) ==>
                |name| == 8 && name <= msg.timestamp
      ensures |msg.timestamp| < 8 ==> !ok && db.tables == old(db.tables)
    {
      TouchesItsDay(db.tables, msg, f);
      var date := DateOf(msg.timestamp);
      if date == "" { return false; }
      var ensured := EnsureTableExists(db, date, f);
      if !ensured { return false; }
      ok := InsertRows(db, date, msg, f);
    }

    lemma TouchesItsDay(t: Tables, msg: Msg, f: Faults)
      ensures var t' := Written(t, maxTablesPerDb, msg, f);
              forall name :: name in t' && (name !in t || t'[name] != t[name]) ==> |name| == 8 && name <= msg.timestamp
      ensures |msg.timestamp| < 8 ==> !WriteOk(t, maxTablesPerDb, msg, f) && Written(t, maxTablesPerDb, msg, f) == t
    {
      var t' := Written(t, maxTablesPerDb, msg, f);
      forall name | name in t' && (name !in t || t'[name] != t[name]) ensures |name| == 8 && name <= msg.timestamp {
        WritesToItsDay(t, maxTablesPerDb, msg, f, name);
      }
      if |msg.timestamp| < 8 { ShortTimestampFails(t, maxTablesPerDb, msg, f); }
    }

    method WriteMessage(msg: Msg, f: Faults) returns (ok: bool)
      requires Valid()
      modifies this, disk.Values
      ensures Valid() && fresh(disk.Values - old(disk.Values))
      ensures Contents() == StoreWrite(Cfg(), old(Contents()), msg, old(Opens(msg.channel, f)), f)
      ensures ok <==> old(Opens(msg.channel, f))
                      && WriteOk(ChannelTables(Cfg(), old(Contents()), msg.channel), maxTablesPerDb, msg, f)
      ensures ok ==> 8 <= |msg.timestamp|
    {
      var db := GetDbHandle(msg.channel, f);
      if db == null { return false; }
      ghost var path, t := PathOf(Cfg(), msg.channel), db.tables;
      TouchesItsDay(t, msg, f);
      ok := WriteThrough(db, path, msg, f);
      Overwrite(old(Contents()), path, t, Written(t, maxTablesPerDb, msg, f));
    }

    method DropTable(channel: int, tableName: string, f: Faults) returns (ok: bool)
      requires Valid()
      modifies this, disk.Values
      ensures Valid() && fresh(disk.Values - old(disk.Values))
      ensures ok <==> old(Opens(channel, f)) && tableName !in f.dropFails
      ensures ok ==> Contents() == StoreDrop(Cfg(), old(Contents()), channel, tableName, true, false)
      ensures !ok ==> forall p :: TablesAt(Contents(), p) == TablesAt(old(Contents()), p)
    {
      var db := GetDbHandle(channel, f);
      if db == null { return false; }
      if tableName in f.dropFails { return false; }
      label connected:
      ghost var path, c := PathOf(Cfg(), channel), Contents();
      db.tables := db.tables - {tableName};
      assert Contents() == c[path := db.tables] by { OneFileChanged@connected(path); }
      return true;
    }

    /** The cursor loop over one table: what it makes of an empty message. */
    static method CollectRows(rows: seq<Row>, channel: int32, id: int32) returns (found: bool, outMsg: Msg)
      ensures found <==> RowsWithId(rows, id) != []
      ensures outMsg == if found then Aggregate(channel, RowsWithId(rows, id)) else EMPTY_MSG
    {
      found, outMsg := false, EMPTY_MSG;
      for j := 0 to |rows|
        invariant found <==> RowsWithId(rows[..j], id) != []
        invariant outMsg == if found then Aggregate(channel, RowsWithId(rows[..j], id)) else EMPTY_MSG
      {
        var row := rows[j];
        assert rows[..j + 1][..j] == rows[..j];
        if row.id == id {
          AggregateAppend(channel, RowsWithId(rows[..j], id), row);
          if !found {
            outMsg := outMsg.(id := row.id, channel := channel, pduAddr := row.pduAddr, pduFunc := row.pduFunc,
                              pduData := row.pduData, timestamp := row.timestamp);
            found := true;
          }
          var reg := RegisterItem(row.address, row.mapAddr, row.value, row.description);
          outMsg := outMsg.(registerMap := outMsg.registerMap + [reg]);
        }
      }
      assert rows[..|rows|] == rows;
    }

    /** `selectByIdAndChannel` once it has its connection. */
    method SelectThrough(db: SqliteFile, channel: int32, id: int32, f: Faults, outMsg0: Msg)
      returns (found: bool, outMsg: Msg)
      ensures Selects(db.tables, channel, id, f, outMsg0, found, outMsg)
    {
      found, outMsg := false, outMsg0;
      var tables := GetAllTableNames(db, f);
      if |tables| == 0 { return; }
      outMsg := EMPTY_MSG;
      var i := 0;
      while i < |tables| && !found
        invariant 0 <= i <= |tables|
        invariant !found ==> outMsg == EMPTY_MSG
        invariant found ==> 0 < i
        invariant NoHits(db.tables, id, f, if found then i - 1 else i)
        invariant found ==> HasHit(db.tables, id, f, tables[i - 1])
                            && outMsg == Aggregate(channel, RowsWithId(db.tables[tables[i - 1]], id))
      {
        var table := tables[i];
        if table !in f.selectFails {
          found, outMsg := CollectRows(db.tables[table], channel, id);
        }
        if !found { OneMoreMiss(db.tables, id, f, i); }
        i := i + 1;
      }
      if found { FirstHitIsEarliest(db.tables, id, f, i - 1); }
    }

    method SelectByIdAndChannel(channel: int32, id: int32, f: Faults, outMsg0: Msg) returns (found: bool, outMsg: Msg)
      requires Valid()
      modifies this
      ensures Valid() && fresh(disk.Values - old(disk.Values))
      ensures forall p :: TablesAt(Contents(), p) == TablesAt(old(Contents()), p)
      ensures old(Opens(channel, f)) ==>
                Selects(ChannelTables(Cfg(), old(Contents()), channel), channel, id, f, outMsg0, found, outMsg)
      ensures !old(Opens(channel, f)) ==> !found && outMsg == outMsg0
    {
      var db := GetDbHandle(channel, f);
      if db == null { return false, outMsg0; }
      found, outMsg := SelectThrough(db, channel, id, f, outMsg0);
    }
  }

  lemma Overwrite<K, V>(m: map<K, V>, k: K, a: V, b: V)
    ensures m[k := a][k := b] == m[k := b]
  {
  }

  lemma FirstHitIsEarliest(t: Tables, id: int32, f: Faults, i: nat)
    requires i < |Listing(t.Keys, f)| && HasHit(t, id, f, Listing(t.Keys, f)[i])
    requires NoHits(t, id, f, i)
    ensures EarliestWithId(t, id, f, Listing(t.Keys, f)[i])
  {
    var listed := Listing(t.Keys, f);
    forall e | HasHit(t, id, f, e) && e in listed && Less(e, listed[i]) ensures false {
      var k :| 0 <= k < |listed| && listed[k] == e;
      LessTotal(listed[i], e);
    }
  }
}
