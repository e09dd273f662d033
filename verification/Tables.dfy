/** One channel's database as a value: table name to rows in rowid order, and the
    effect of one `writeMessage` on it, stated without loops. SQLite calls may fail;
    which ones do is an explicit argument. */
module Tables {
  import opened Messages
  import opened Order
  import opened Numerals

  datatype Row = Row(
    id: int32, pduAddr: int32, pduFunc: int32, pduData: string, timestamp: string,
    address: int32, mapAddr: int32, value: int32, description: string)

  type Tables = map<string, seq<Row>>

  /** The SQLite calls that fail during one operation.
      - `checkMisses`: the step of the existence query returns an error, which reads as "absent"
      - `listed`: the listing of day tables stops after this many names (0: it cannot be prepared) */
  datatype Faults = Faults(
    openFails: bool,
    checkFails: bool,
    checkMisses: bool,
    createFails: bool,
    listed: Option<nat>,
    dropFails: set<string>,
    insertFails: set<nat>,
    selectFails: set<string>)

  const NO_FAULTS := Faults(false, false, false, false, None, {}, {}, {})

  /** Names matching the GLOB 20[0-9][0-9][0-1][0-9][0-3][0-9]. */
  predicate IsDayName(s: string) {
    && |s| == 8 && s[0] == '2' && s[1] == '0' && IsDigit(s[2]) && IsDigit(s[3])
    && '0' <= s[4] <= '1' && IsDigit(s[5]) && '0' <= s[6] <= '3' && IsDigit(s[7])
  }

  function DayNames(names: set<string>): set<string> {
    set d | d in names && IsDayName(d)
  }

  ghost function Older(names: set<string>, d: string): set<string> { Below(DayNames(names), d) }

  ghost function Newer(names: set<string>, d: string): set<string> { Above(DayNames(names), d) }

  /** The retention policy on names: every name that is no day name, and the `limit`
      greatest day names. A negative limit, compared as size_t, never evicts. */
  ghost function Retained(names: set<string>, limit: int): set<string> {
    set d | d in names && (!IsDayName(d) || limit < 0 || |Newer(names, d)| < limit)
  }

  /** The day-table listing, ascending, as far as the query got. */
  function Listing(names: set<string>, f: Faults): (listed: seq<string>)
    ensures Ascending(listed)
    ensures forall i :: 0 <= i < |listed| ==> listed[i] in names && IsDayName(listed[i])
  {
    var all := Sorted(DayNames(names));
    match f.listed
    case None => all
    case Some(n) => if n <= |all| then all[..n] else all
  }

  ghost predicate Dropped(names: set<string>, limit: int, f: Faults, d: string) {
    IsDayName(d) && 0 <= limit && d !in f.dropFails && |Older(names, d)| + limit < |Listing(names, f)|
  }

  ghost function Cleaned(t: Tables, limit: int, f: Faults): Tables {
    map d | d in t && !Dropped(t.Keys, limit, f, d) :: t[d]
  }

  /** The dropped tables are the first ones of the listing, up to its length less the limit. */
  lemma DroppedIffListedEarly(names: set<string>, limit: nat, f: Faults, d: string)
    requires d in names
    ensures var listed := Listing(names, f);
            Dropped(names, limit, f, d) <==>
              limit < |listed| && d in listed[..|listed| - limit] && d !in f.dropFails
  {
    var listed := Listing(names, f);
    if limit < |listed| && IsDayName(d) {
      ListedEarlyIff(names, f, d, |listed| - limit);
    } else if limit < |listed| {
      assert forall i :: 0 <= i < |listed| ==> IsDayName(listed[i]);
    }
  }

  /** A day is among the first `n` listed exactly when fewer than `n` days are older. */
  lemma ListedEarlyIff(names: set<string>, f: Faults, d: string, n: nat)
    requires d in names && IsDayName(d) && n <= |Listing(names, f)|
    ensures d in Listing(names, f)[..n] <==> |Older(names, d)| < n
  {
    var listed := Listing(names, f);
    var i := PositionOf(names, d);
    ListingIsHead(names, f);
    if i < n { assert listed[..n][i] == d; }
    if d in listed[..n] {
      var j :| 0 <= j < n && listed[..n][j] == d;
      ListingPosition(DayNames(names), Sorted(DayNames(names)), j);
    }
  }

  /** As many days precede a day in the full listing as are older. */
  lemma PositionOf(names: set<string>, d: string) returns (i: nat)
    requires d in names && IsDayName(d)
    ensures i == |Older(names, d)| && i < |Sorted(DayNames(names))| && Sorted(DayNames(names))[i] == d
  {
    var all := Sorted(DayNames(names));
    assert d in all;
    i :| 0 <= i < |all| && all[i] == d;
    ListingPosition(DayNames(names), all, i);
  }

  lemma ListingIsHead(names: set<string>, f: Faults)
    ensures Listing(names, f) <= Sorted(DayNames(names))
  {
  }

  /** Dropping tables one after the other; a failing drop leaves its table. */
  ghost function DropEach(t: Tables, names: seq<string>, fails: set<string>): Tables {
    if names == [] then t
    else
      var last := names[|names| - 1];
      DropEach(t, names[..|names| - 1], fails) - (if last in fails then {} else {last})
  }

  lemma {:induction false} DropEachLeaves(t: Tables, names: seq<string>, fails: set<string>)
    ensures DropEach(t, names, fails) == map d | d in t && !(d in names && d !in fails) :: t[d]
  {
    if names != [] {
      var pre, last := names[..|names| - 1], names[|names| - 1];
      DropEachLeaves(t, pre, fails);
      assert forall d :: d in names <==> d in pre || d == last;
    }
  }

  lemma DropEachOneMore(t: Tables, names: seq<string>, fails: set<string>, i: nat)
    requires i < |names|
    ensures var before := DropEach(t, names[..i], fails);
            DropEach(t, names[..i + 1], fails) == if names[i] in fails then before else before - {names[i]}
  {
    assert names[..i + 1][..i] == names[..i];
  }

  /** Cleaning up is dropping the head of the listing. */
  lemma CleanedIsDropEach(t: Tables, limit: nat, f: Faults)
    requires limit < |Listing(t.Keys, f)|
    ensures var listed := Listing(t.Keys, f);
            Cleaned(t, limit, f) == DropEach(t, listed[..|listed| - limit], f.dropFails)
  {
    var listed := Listing(t.Keys, f);
    var head := listed[..|listed| - limit];
    DropEachLeaves(t, head, f.dropFails);
    forall d | d in t ensures Dropped(t.Keys, limit, f, d) <==> d in head && d !in f.dropFails {
      DroppedIffListedEarly(t.Keys, limit, f, d);
    }
    CleanedLeaves(t, limit, f, head);
  }

  lemma CleanedLeaves(t: Tables, limit: nat, f: Faults, head: seq<string>)
    requires forall d :: d in t ==> (Dropped(t.Keys, limit, f, d) <==> d in head && d !in f.dropFails)
    ensures Cleaned(t, limit, f) == map d | d in t && !(d in head && d !in f.dropFails) :: t[d]
  {
  }

  lemma NothingToDrop(t: Tables, limit: int, f: Faults)
    requires limit < 0 || |Listing(t.Keys, f)| <= limit
    ensures Cleaned(t, limit, f) == t
  {
    if 0 <= limit {
      forall d | d in t ensures !Dropped(t.Keys, limit, f, d) { DroppedIffListedEarly(t.Keys, limit, f, d); }
    }
    assert Cleaned(t, limit, f).Keys == t.Keys;
  }

  /** CREATE TABLE IF NOT EXISTS. */
  function Created(t: Tables, date: string): Tables {
    if date in t then t else t[date := []]
  }

  ghost function Ensured(t: Tables, limit: int, date: string, f: Faults): Option<Tables> {
    if f.checkFails then None
    else if date in t && !f.checkMisses then Some(t)
    else if f.createFails then None
    else Some(Cleaned(Created(t, date), limit, f))
  }

  /** The day of a timestamp YYYYMMDDHHMMSS; empty for a timestamp that is too short. */
  function DateOf(timestamp: string): string {
    if |timestamp| >= 8 then timestamp[..8] else ""
  }

  function RowOf(m: Msg, r: RegisterItem): Row {
    Row(m.id, m.pduAddr, m.pduFunc, CStr(m.pduData), CStr(m.timestamp),
        r.address, r.mapAddr, r.value, CStr(r.description))
  }

  /** One row per register. */
  function RowsOf(m: Msg): seq<Row> {
    seq(|m.registerMap|, i requires 0 <= i < |m.registerMap| => RowOf(m, m.registerMap[i]))
  }

  /** Those of them that belong in the table of day `d`. */
  function RowsFor(m: Msg, d: string): seq<Row> {
    if d != "" && d == DateOf(m.timestamp) then RowsOf(m) else []
  }

  /** The rows of the first `n` registers whose insert succeeds. */
  function RowsInserted(m: Msg, fails: set<nat>, n: nat): seq<Row>
    requires n <= |m.registerMap|
  {
    if n == 0 then []
    else RowsInserted(m, fails, n - 1) + (if n - 1 in fails then [] else [RowOf(m, m.registerMap[n - 1])])
  }

  lemma {:induction false} AllRowsInserted(m: Msg, n: nat)
    requires n <= |m.registerMap|
    ensures RowsInserted(m, {}, n) == RowsOf(m)[..n]
  {
    if n > 0 { AllRowsInserted(m, n - 1); }
  }

  /** The tables after trying to insert the rows of the first `n` registers. */
  ghost function Inserted(t: Tables, date: string, m: Msg, fails: set<nat>, n: nat): Tables
    requires n <= |m.registerMap|
  {
    if date in t then t[date := t[date] + RowsInserted(m, fails, n)] else t
  }

  lemma InsertedNone(t: Tables, date: string, m: Msg, fails: set<nat>)
    ensures Inserted(t, date, m, fails, 0) == t
  {
    if date in t { assert t[date] + [] == t[date]; }
  }

  lemma InsertedOneMore(t: Tables, date: string, m: Msg, fails: set<nat>, n: nat)
    requires n < |m.registerMap|
    ensures var before := Inserted(t, date, m, fails, n);
            Inserted(t, date, m, fails, n + 1) ==
              if date in before && n !in fails
              then before[date := before[date] + [RowOf(m, m.registerMap[n])]] else before
  {
    if date in t {
      var before, row := Inserted(t, date, m, fails, n), RowOf(m, m.registerMap[n]);
      if n in fails {
        assert RowsInserted(m, fails, n + 1) == RowsInserted(m, fails, n);
      } else {
        assert t[date] + (RowsInserted(m, fails, n) + [row]) == before[date] + [row];
        assert t[date := before[date] + [row]] == before[date := before[date] + [row]];
      }
    }
  }

  ghost function Written(t: Tables, limit: int, m: Msg, f: Faults): Tables {
    var date := DateOf(m.timestamp);
    if date == "" then t
    else match Ensured(t, limit, date, f)
      case None => t
      case Some(e) => Inserted(e, date, m, f.insertFails, |m.registerMap|)
  }

  /** None of the first `n` inserts fails. */
  ghost predicate NoneFails(fails: set<nat>, n: nat) { forall i :: i in fails ==> n <= i }

  lemma OneMoreFails(fails: set<nat>, n: nat)
    ensures NoneFails(fails, 0)
    ensures NoneFails(fails, n + 1) <==> NoneFails(fails, n) && n !in fails
  {
  }

  ghost predicate WriteOk(t: Tables, limit: int, m: Msg, f: Faults) {
    var date := DateOf(m.timestamp);
    date != "" && match Ensured(t, limit, date, f)
      case None => false
      case Some(e) => (m.registerMap == [] || date in e) && NoneFails(f.insertFails, |m.registerMap|)
  }

  /** A write touches no table but the one named by the first eight characters of the timestamp. */
  lemma WritesToItsDay(t: Tables, limit: int, m: Msg, f: Faults, name: string)
    requires name in Written(t, limit, m, f) && (name !in t || Written(t, limit, m, f)[name] != t[name])
    ensures |name| == 8 && name <= m.timestamp
  {
  }

  /** A timestamp that is too short makes a write fail without a trace. */
  lemma ShortTimestampFails(t: Tables, limit: int, m: Msg, f: Faults)
    requires |m.timestamp| < 8
    ensures !WriteOk(t, limit, m, f) && Written(t, limit, m, f) == t
  {
  }

  function RowsWithId(rows: seq<Row>, id: int32): seq<Row> {
    if rows == [] then []
    else RowsWithId(rows[..|rows| - 1], id) + (if rows[|rows| - 1].id == id then [rows[|rows| - 1]] else [])
  }

  lemma {:induction false} RowsWithIdConcat(a: seq<Row>, b: seq<Row>, id: int32)
    ensures RowsWithId(a + b, id) == RowsWithId(a, id) + RowsWithId(b, id)
  {
    if b == [] {
      assert a + b == a;
    } else {
      var n := |b| - 1;
      RowsWithIdConcat(a, b[..n], id);
      assert (a + b)[..|a + b| - 1] == a + b[..n];
    }
  }

  function ItemOf(r: Row): RegisterItem {
    RegisterItem(r.address, r.mapAddr, r.value, r.description)
  }

  /** A message put together from the rows found: the header of the first, the items of all. */
  function Aggregate(channel: int32, rows: seq<Row>): Msg
    requires rows != []
  {
    Msg(rows[0].id, channel, rows[0].pduAddr, rows[0].pduFunc, rows[0].pduData, rows[0].timestamp,
        seq(|rows|, i requires 0 <= i < |rows| => ItemOf(rows[i])))
  }

  lemma AggregateAppend(channel: int32, rows: seq<Row>, row: Row)
    ensures Aggregate(channel, rows + [row]) ==
            if rows == []
            then Msg(row.id, channel, row.pduAddr, row.pduFunc, row.pduData, row.timestamp, [ItemOf(row)])
            else Aggregate(channel, rows).(registerMap := Aggregate(channel, rows).registerMap + [ItemOf(row)])
  {
    assert rows == [] ==> rows + [row] == [row];
  }

  /** A query of this table by id succeeds and finds a row. */
  ghost predicate HasHit(t: Tables, id: int32, f: Faults, d: string) {
    d in t && d !in f.selectFails && RowsWithId(t[d], id) != []
  }

  /** None of the first `n` listed tables has one. */
  ghost predicate NoHits(t: Tables, id: int32, f: Faults, n: nat) {
    var listed := Listing(t.Keys, f);
    n <= |listed| && forall k :: 0 <= k < n ==> !HasHit(t, id, f, listed[k])
  }

  lemma OneMoreMiss(t: Tables, id: int32, f: Faults, n: nat)
    requires NoHits(t, id, f, n) && n < |Listing(t.Keys, f)| && !HasHit(t, id, f, Listing(t.Keys, f)[n])
    ensures NoHits(t, id, f, n + 1)
  {
  }

  /** `d` is the earliest listed day table with a row of this id. */
  ghost predicate EarliestWithId(t: Tables, id: int32, f: Faults, d: string) {
    && HasHit(t, id, f, d) && d in Listing(t.Keys, f)
    && forall e :: e in Listing(t.Keys, f) && Less(e, d) ==> !HasHit(t, id, f, e)
  }

  /** What a lookup by id reports: `before` is the caller's message, which an empty listing leaves alone. */
  ghost predicate Selects(t: Tables, channel: int32, id: int32, f: Faults, before: Msg, found: bool, out: Msg) {
    && (found <==> exists d :: d in Listing(t.Keys, f) && HasHit(t, id, f, d))
    && (found ==> exists d :: EarliestWithId(t, id, f, d) && out == Aggregate(channel, RowsWithId(t[d], id)))
    && (!found ==> out == if |Listing(t.Keys, f)| == 0 then before else EMPTY_MSG)
  }
}
