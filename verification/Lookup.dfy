/** Lookup by id undoes a write, for as long as the message's day is retained. */
module Lookup {
  import opened Messages
  import opened Order
  import opened Tables
  import opened Retention

  /** What the text columns keep of a message: every string up to its first NUL. */
  function Stored(m: Msg): Msg {
    m.(pduData := CStr(m.pduData), timestamp := CStr(m.timestamp),
       registerMap := seq(|m.registerMap|, i requires 0 <= i < |m.registerMap| =>
                            m.registerMap[i].(description := CStr(m.registerMap[i].description))))
  }

  ghost predicate NulFree(m: Msg) {
    && '\0' !in m.pduData && '\0' !in m.timestamp
    && forall i :: 0 <= i < |m.registerMap| ==> '\0' !in m.registerMap[i].description
  }

  /** The stored message is the message exactly when no string in it holds a NUL. */
  lemma StoredIsSameIff(m: Msg)
    ensures Stored(m) == m <==> NulFree(m)
  {
    var s := Stored(m);
    if s == m {
      forall i | 0 <= i < |m.registerMap| ensures '\0' !in m.registerMap[i].description {
        assert s.registerMap[i].description == CStr(m.registerMap[i].description);
      }
    }
    if NulFree(m) {
      forall i | 0 <= i < |m.registerMap| ensures s.registerMap[i] == m.registerMap[i] {
        assert CStr(m.registerMap[i].description) == m.registerMap[i].description;
      }
      assert s.registerMap == m.registerMap;
    }
  }

  lemma {:induction false} AllHaveId(rows: seq<Row>, id: int32)
    requires forall i :: 0 <= i < |rows| ==> rows[i].id == id
    ensures RowsWithId(rows, id) == rows
  {
    if rows != [] { AllHaveId(rows[..|rows| - 1], id); }
  }

  lemma {:induction false} NoneHasId(rows: seq<Row>, id: int32)
    requires forall i :: 0 <= i < |rows| ==> rows[i].id != id
    ensures RowsWithId(rows, id) == []
  {
    if rows != [] { NoneHasId(rows[..|rows| - 1], id); }
  }

  lemma {:induction false} OtherIdsLeaveNoRows(ms: seq<Msg>, d: string, id: int32)
    requires forall m :: m in ms && DateOf(m.timestamp) == d ==> m.id != id
    ensures RowsWithId(Flatten(ms, d), id) == []
  {
    if ms != [] {
      var pre, last := ms[..|ms| - 1], ms[|ms| - 1];
      assert last in ms && forall m :: m in pre ==> m in ms;
      OtherIdsLeaveNoRows(pre, d, id);
      NoneHasId(RowsFor(last, d), id);
      RowsWithIdConcat(Flatten(pre, d), RowsFor(last, d), id);
    }
  }

  /** A lookup in vain clears the caller's message, if there is a day table at all. */
  lemma NotFoundIsBlank(t: Tables, channel: int32, id: int32, f: Faults, before: Msg, out: Msg)
    requires Selects(t, channel, id, f, before, false, out)
    ensures if Listing(t.Keys, f) == [] then out == before
            else out.id == out.channel == out.pduAddr == out.pduFunc == 0
                 && out.pduData == out.timestamp == "" && out.registerMap == []
  {
  }

  /** What a lookup reports is determined by the tables: there is one earliest table with the id. */
  lemma SelectsDetermines(t: Tables, channel: int32, id: int32, f: Faults, before: Msg,
                          found1: bool, out1: Msg, found2: bool, out2: Msg)
    requires Selects(t, channel, id, f, before, found1, out1) && Selects(t, channel, id, f, before, found2, out2)
    ensures found1 == found2 && out1 == out2
  {
    if found1 {
      var d :| EarliestWithId(t, id, f, d) && out1 == Aggregate(channel, RowsWithId(t[d], id));
      var e :| EarliestWithId(t, id, f, e) && out2 == Aggregate(channel, RowsWithId(t[e], id));
      LessTotal(d, e);
    }
  }

  /** The only rows of this id in any day table of `t` are those of `m`, in the table of its day. */
  ghost predicate OnlyHolds(t: Tables, m: Msg) {
    var date := DateOf(m.timestamp);
    && date in t && RowsWithId(t[date], m.id) == RowsOf(m)
    && forall d :: d in t && IsDayName(d) && d != date ==> RowsWithId(t[d], m.id) == []
  }

  /** Whatever else fails, a lookup that reads the table of its day reports the message. */
  lemma OnlyHoldsSelects(t: Tables, m: Msg, f: Faults, before: Msg, found: bool, out: Msg)
    requires OnlyHolds(t, m) && IsDayName(DateOf(m.timestamp)) && m.registerMap != []
    requires DateOf(m.timestamp) in Listing(t.Keys, f) && DateOf(m.timestamp) !in f.selectFails
    requires Selects(t, m.channel, m.id, f, before, found, out)
    ensures found && out == Stored(m)
  {
    var date := DateOf(m.timestamp);
    assert HasHit(t, m.id, f, date);
    var d :| EarliestWithId(t, m.id, f, d) && out == Aggregate(m.channel, RowsWithId(t[d], m.id));
    assert d == date;
    AggregateIsStored(m);
  }

  /** Putting a message's rows together again. */
  lemma AggregateIsStored(m: Msg)
    requires m.registerMap != []
    ensures Aggregate(m.channel, RowsOf(m)) == Stored(m)
  {
    assert RowsOf(m)[0] == RowOf(m, m.registerMap[0]);
    assert Aggregate(m.channel, RowsOf(m)).registerMap == Stored(m).registerMap;
  }

  lemma HeldAfterWrite(t: Tables, limit: int, m: Msg)
    requires WriteOk(t, limit, m, NO_FAULTS) && m.registerMap != []
    requires forall d :: d in t && d in Written(t, limit, m, NO_FAULTS) && IsDayName(d) ==> RowsWithId(t[d], m.id) == []
    requires IsDayName(DateOf(m.timestamp))
    ensures OnlyHolds(Written(t, limit, m, NO_FAULTS), m)
  {
    var t' := Written(t, limit, m, NO_FAULTS);
    var date := DateOf(m.timestamp);
    AllHaveId(RowsOf(m), m.id);
    forall d | d in t' && IsDayName(d)
      ensures RowsWithId(t'[d], m.id) == if d == date then RowsOf(m) else []
    {
      WrittenRows(t, limit, m, d);
      RowsWithIdConcat(RowsIn(t, d), if d == date then RowsOf(m) else [], m.id);
    }
  }

  /** None of these messages has this id and a day that a lookup in `t` reads. */
  ghost predicate OthersIn(t: Tables, id: int32, ms: seq<Msg>) {
    forall x :: x in ms && x.id == id ==> !(IsDayName(DateOf(x.timestamp)) && DateOf(x.timestamp) in t)
  }

  /** Even from a database above its limit: what was held stays held while its day is there. */
  lemma HeldThroughOtherWrites(t: Tables, limit: int, m: Msg, later: seq<Msg>)
    requires OnlyHolds(t, m) && IsDayName(DateOf(m.timestamp))
    requires OthersIn(AfterWrites(t, limit, later), m.id, later)
    requires DateOf(m.timestamp) in AfterWrites(t, limit, later)
    ensures OnlyHolds(AfterWrites(t, limit, later), m)
  {
    var t' := AfterWrites(t, limit, later);
    RetentionIsTopOfHistory(t, limit, later);
    forall d | d in t' && IsDayName(d) ensures RowsWithId(t'[d], m.id) == RowsWithId(RowsIn(t, d), m.id) {
      OtherIdsLeaveNoRows(later, d, m.id);
      RowsWithIdConcat(RowsIn(t, d), Flatten(later, d), m.id);
    }
  }

  /** From any database: after a successful write of a message with registers, whose id no other retained
      row has, a lookup reports the message with its strings cut at the first NUL. It keeps doing so as long
      as its day is retained and no retained day holds a later message of the same id. */
  lemma WriteThenSelect(t: Tables, limit: int, m: Msg, later: seq<Msg>, before: Msg, found: bool, out: Msg)
    requires IsDayName(DateOf(m.timestamp)) && m.registerMap != [] && WriteOk(t, limit, m, NO_FAULTS)
    requires forall d :: d in t && d in Written(t, limit, m, NO_FAULTS) && IsDayName(d) ==> RowsWithId(t[d], m.id) == []
    requires OthersIn(AfterWrites(Written(t, limit, m, NO_FAULTS), limit, later), m.id, later)
    requires DateOf(m.timestamp) in AfterWrites(Written(t, limit, m, NO_FAULTS), limit, later)
    requires Selects(AfterWrites(Written(t, limit, m, NO_FAULTS), limit, later), m.channel, m.id, NO_FAULTS, before, found, out)
    ensures found && out == Stored(m)
    ensures out == m <==> NulFree(m)
  {
    var t1 := Written(t, limit, m, NO_FAULTS);
    HeldAfterWrite(t, limit, m);
    HeldThroughOtherWrites(t1, limit, m, later);
    assert DateOf(m.timestamp) in Listing(AfterWrites(t1, limit, later).Keys, NO_FAULTS);
    OnlyHoldsSelects(AfterWrites(t1, limit, later), m, NO_FAULTS, before, found, out);
    StoredIsSameIff(m);
  }
}
