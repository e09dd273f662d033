/** What the create-then-drop policy amounts to over whole histories of one channel. */
module Retention {
  import opened Messages
  import opened Sequences
  import opened Order
  import opened Tables

  // ----- the policy on names -----

  lemma NewerMonotonic(a: set<string>, b: set<string>, d: string)
    requires a <= b
    ensures |Newer(a, d)| <= |Newer(b, d)|
  {
    SubsetSize(Newer(a, d), Newer(b, d));
  }

  /** Every evicted day is smaller than every retained one. */
  lemma EvictedAreOlder(names: set<string>, limit: nat, d: string, e: string)
    requires d in DayNames(names) - Retained(names, limit)
    requires e in DayNames(Retained(names, limit))
    ensures Less(d, e)
  {
    LessIsStrictTotalOrder();
    if !Less(d, e) {
      assert Newer(names, d) <= Newer(names, e);
      SubsetSize(Newer(names, d), Newer(names, e));
    }
  }

  /** The policy keeps min(limit, n) of n day names. */
  lemma {:induction false} RetainedCount(names: set<string>, limit: nat)
    ensures |DayNames(Retained(names, limit))| == if |DayNames(names)| <= limit then |DayNames(names)| else limit
    decreases |DayNames(names)|
  {
    var days := DayNames(names);
    if |days| <= limit {
      forall d | d in days ensures d in Retained(names, limit) { BelowAbove(days, d); }
      assert DayNames(Retained(names, limit)) == days;
    } else {
      LeastExists(days);
      var least :| IsLeast(least, days);
      var rest := names - {least};
      assert DayNames(rest) == days - {least};
      assert least !in Retained(names, limit) by {
        LessIsStrictTotalOrder();
        assert Newer(names, least) == days - {least};
      }
      forall d | d in DayNames(rest) ensures Newer(rest, d) == Newer(names, d) { LessTotal(least, d); }
      assert DayNames(Retained(names, limit)) == DayNames(Retained(rest, limit));
      RetainedCount(rest, limit);
    }
  }

  /** A database within its limit loses nothing to the policy, and only such a database. */
  lemma RetainedAllIffWithin(names: set<string>, limit: nat)
    ensures Retained(names, limit) == names <==> |DayNames(names)| <= limit
  {
    RetainedCount(names, limit);
    if |DayNames(names)| <= limit {
      forall d | d in DayNames(names) ensures d in Retained(names, limit) { BelowAbove(DayNames(names), d); }
    }
  }

  /** Evicting as one goes is evicting once at the end. */
  lemma RetainedAbsorbs(names: set<string>, x: string, limit: int)
    ensures Retained(Retained(names, limit) + {x}, limit) == Retained(names + {x}, limit)
  {
    var a, b := Retained(names, limit) + {x}, names + {x};
    if 0 <= limit {
      forall d | d in b ensures d in Retained(a, limit) <==> d in Retained(b, limit) {
        NewerMonotonic(a, b, d);
        NewerMonotonic(names, b, d);
        if d in Retained(a, limit) && d !in Retained(b, limit) {
          NoSlackBelow(names, x, limit, d);
        }
      }
    }
  }

  lemma NoSlackBelow(names: set<string>, x: string, limit: nat, d: string)
    requires |Newer(names + {x}, d)| >= limit
    ensures |Newer(Retained(names, limit) + {x}, d)| >= limit
  {
    var kept := Retained(names, limit);
    if Newer(names + {x}, d) <= kept {
      assert Newer(names + {x}, d) <= Newer(kept + {x}, d);
      SubsetSize(Newer(names + {x}, d), Newer(kept + {x}, d));
    } else if y :| y in Newer(names + {x}, d) && y !in kept + {x} {
      forall e | e in DayNames(kept) ensures e in Newer(kept + {x}, d) {
        EvictedAreOlder(names, limit, y, e);
        LessTransitive(d, y, e);
      }
      SubsetSize(DayNames(kept), Newer(kept + {x}, d));
      RetainedCount(names, limit);
      RetainedAllIffWithin(names, limit);
    } else {
      assert Newer(names + {x}, d) <= Newer(kept + {x}, d);
      SubsetSize(Newer(names + {x}, d), Newer(kept + {x}, d));
    }
  }

  // ----- one cleanup, with failures -----

  /** However the listing and the drops fail, a cleanup never removes one of the `limit` newest days,
      touches no other name and no surviving row; what it does remove had at least `limit` newer days. */
  lemma CleanupIsSafe(t: Tables, limit: nat, f: Faults, d: string)
    requires d in t
    ensures d in Cleaned(t, limit, f) ==> Cleaned(t, limit, f)[d] == t[d]
    ensures d !in Cleaned(t, limit, f) ==> IsDayName(d) && |Newer(t.Keys, d)| >= limit && d !in f.dropFails
    ensures d in Retained(t.Keys, limit) ==> d in Cleaned(t, limit, f)
  {
    if Dropped(t.Keys, limit, f, d) { DroppedHasNewer(t.Keys, limit, f, d); }
  }

  lemma DroppedHasNewer(names: set<string>, limit: nat, f: Faults, d: string)
    requires d in names && Dropped(names, limit, f, d)
    ensures limit <= |Newer(names, d)|
  {
    BelowAbove(DayNames(names), d);
    ListingAtMost(names, f);
  }

  lemma ListingAtMost(names: set<string>, f: Faults)
    ensures |Listing(names, f)| <= |DayNames(names)|
  {
  }

  /** One cleanup in which the listing is complete and every drop succeeds leaves exactly the newest
      `limit` days, whatever excess earlier failures left behind. */
  lemma CleanupHeals(t: Tables, limit: int, f: Faults)
    requires f.listed == None && f.dropFails == {}
    ensures Cleaned(t, limit, f).Keys == Retained(t.Keys, limit)
    ensures forall d :: d in Cleaned(t, limit, f) ==> Cleaned(t, limit, f)[d] == t[d]
  {
    forall d | d in t ensures d in Cleaned(t, limit, f) <==> d in Retained(t.Keys, limit) {
      if IsDayName(d) { BelowAbove(DayNames(t.Keys), d); }
    }
  }

  // ----- one write -----

  ghost function RowsIn(t: Tables, d: string): seq<Row> {
    if d in t then t[d] else []
  }

  /** With no failures, ensuring a missing day creates it and keeps what the policy retains. */
  lemma EnsuredKeys(t: Tables, limit: int, date: string)
    requires date !in t
    ensures Ensured(t, limit, date, NO_FAULTS).Some?
    ensures var e := Ensured(t, limit, date, NO_FAULTS).value;
            && e.Keys == Retained(t.Keys + {date}, limit)
            && forall d :: d in e ==> e[d] == RowsIn(t, d)
  {
    var c := Created(t, date);
    assert c.Keys == t.Keys + {date};
    CleanupHeals(c, limit, NO_FAULTS);
  }

  /** The names once a message of this day is written: only a new day makes a write create and evict. */
  ghost function Joined(names: set<string>, limit: int, date: string): set<string> {
    if date == "" || date in names then names else Retained(names + {date}, limit)
  }

  lemma WrittenKeys(t: Tables, limit: int, m: Msg)
    ensures Written(t, limit, m, NO_FAULTS).Keys == Joined(t.Keys, limit, DateOf(m.timestamp))
  {
    var date := DateOf(m.timestamp);
    if date != "" && date !in t {
      EnsuredKeys(t, limit, date);
      var e := Ensured(t, limit, date, NO_FAULTS).value;
      if date in e { assert e[date := e[date] + RowsInserted(m, {}, |m.registerMap|)].Keys == e.Keys; }
    }
  }

  /** The database is full, and this day is older than everything in it. */
  ghost predicate TooOld(names: set<string>, limit: nat, date: string) {
    |DayNames(names)| == limit && forall d :: d in DayNames(names) ==> Less(date, d)
  }

  lemma TooOldIffAllNewer(names: set<string>, limit: nat, date: string)
    requires |DayNames(names)| <= limit && date !in names
    ensures TooOld(names, limit, date) <==> |Newer(names + {date}, date)| >= limit
  {
    var days, newer := DayNames(names), Newer(names + {date}, date);
    LessTotal(date, date);
    assert newer <= days;
    assert days == newer + (days - newer);
    if TooOld(names, limit, date) { assert newer == days; }
  }

  /** A day too old for a database within its limit is the one the policy evicts. */
  lemma TooOldIffEvicted(names: set<string>, limit: nat, date: string)
    requires |DayNames(names)| <= limit && IsDayName(date) && date !in names
    ensures TooOld(names, limit, date) <==> date !in Retained(names + {date}, limit)
    ensures TooOld(names, limit, date) ==> Retained(names + {date}, limit) == names
  {
    TooOldIffAllNewer(names, limit, date);
    if TooOld(names, limit, date) {
      var kept := DayNames(Retained(names + {date}, limit));
      RetainedCount(names + {date}, limit);
      assert DayNames(names + {date}) == DayNames(names) + {date};
      assert DayNames(names) == kept + (DayNames(names) - kept);
      assert kept == DayNames(names);
    }
  }

  /** The corner case: a day older than all of a full set is created and evicted by the same call,
      which still reports that the table exists. */
  lemma CreatedAndEvictedAtOnce(t: Tables, limit: nat, date: string)
    requires IsDayName(date) && date !in t && TooOld(t.Keys, limit, date)
    ensures Ensured(t, limit, date, NO_FAULTS) == Some(t)
  {
    TooOldIffEvicted(t.Keys, limit, date);
    EnsuredKeys(t, limit, date);
    SameTables(t, Ensured(t, limit, date, NO_FAULTS).value);
  }

  lemma SameTables(t: Tables, e: Tables)
    requires e.Keys == t.Keys && forall d :: d in e ==> e[d] == RowsIn(t, d)
    ensures e == t
  {
  }

  /** A write fails, whatever the database holds, exactly when it has a row to insert and its day is new
      but has `limit` newer ones. */
  lemma WriteFailsIffEvicted(t: Tables, limit: int, m: Msg)
    requires IsDayName(DateOf(m.timestamp))
    ensures !WriteOk(t, limit, m, NO_FAULTS) <==>
              && m.registerMap != [] && DateOf(m.timestamp) !in t
              && 0 <= limit <= |Newer(t.Keys, DateOf(m.timestamp))|
  {
    var date := DateOf(m.timestamp);
    if date !in t {
      EnsuredKeys(t, limit, date);
      LessTotal(date, date);
      assert Newer(t.Keys + {date}, date) == Newer(t.Keys, date);
    }
  }

  /** A write to a database within its limit fails exactly when it has a row to insert and its day is
      new but older than a full set of retained days; it then changes nothing. */
  lemma WriteFailsIff(t: Tables, limit: nat, m: Msg)
    requires |DayNames(t.Keys)| <= limit && IsDayName(DateOf(m.timestamp))
    ensures !WriteOk(t, limit, m, NO_FAULTS) <==>
              && m.registerMap != [] && DateOf(m.timestamp) !in t
              && TooOld(t.Keys, limit, DateOf(m.timestamp))
    ensures !WriteOk(t, limit, m, NO_FAULTS) ==> Written(t, limit, m, NO_FAULTS) == t
  {
    var date := DateOf(m.timestamp);
    if date !in t {
      TooOldIffEvicted(t.Keys, limit, date);
      if TooOld(t.Keys, limit, date) {
        CreatedAndEvictedAtOnce(t, limit, date);
      } else {
        EnsuredKeys(t, limit, date);
      }
    }
  }

  // ----- whole histories of writes -----

  ghost function AfterWrites(t0: Tables, limit: int, ms: seq<Msg>): Tables {
    if ms == [] then t0
    else Written(AfterWrites(t0, limit, ms[..|ms| - 1]), limit, ms[|ms| - 1], NO_FAULTS)
  }

  /** All days a history mentions. */
  ghost function Dates(ms: seq<Msg>): set<string> {
    set m | m in ms && DateOf(m.timestamp) != "" :: DateOf(m.timestamp)
  }

  /** The rows of all messages of one day, in order. */
  ghost function Flatten(ms: seq<Msg>, d: string): seq<Row> {
    if ms == [] then []
    else
      var last := ms[|ms| - 1];
      Flatten(ms[..|ms| - 1], d) + RowsFor(last, d)
  }

  lemma WrittenRows(t: Tables, limit: int, m: Msg, d: string)
    requires d in Written(t, limit, m, NO_FAULTS)
    ensures Written(t, limit, m, NO_FAULTS)[d]
         == RowsIn(t, d) + RowsFor(m, d)
    ensures d in t || (d != "" && d == DateOf(m.timestamp))
  {
    AllRowsInserted(m, |m.registerMap|);
    assert RowsInserted(m, {}, |m.registerMap|) == RowsOf(m);
  }

  lemma {:induction false} NoDateNoRows(ms: seq<Msg>, d: string)
    requires d !in Dates(ms)
    ensures Flatten(ms, d) == []
  {
    if ms != [] {
      var n := |ms| - 1;
      assert ms[n] in ms && forall m :: m in ms[..n] ==> m in ms;
      NoDateNoRows(ms[..n], d);
    }
  }

  /** What a history leaves of the names of start and history: as long as it brings no new day, all of
      them, even above the limit; then what the policy retains. */
  ghost function KeysAfter(names: set<string>, limit: int, dates: set<string>): set<string> {
    if dates <= names then names else Retained(names + dates, limit)
  }

  /** For a start within the limit, that is always what the policy retains. */
  lemma KeysAfterWithin(names: set<string>, limit: int, dates: set<string>)
    requires Retained(names, limit) == names
    ensures KeysAfter(names, limit, dates) == Retained(names + dates, limit)
  {
    if dates <= names { assert names + dates == names; }
  }

  /** The names a history leaves, each table with its initial rows and then all rows of its day. */
  ghost predicate IsTopOfHistory(t0: Tables, limit: int, ms: seq<Msg>, t: Tables) {
    && t.Keys == KeysAfter(t0.Keys, limit, Dates(ms))
    && forall d :: d in t ==> t[d] == RowsIn(t0, d) + Flatten(ms, d)
  }

  lemma DatesAppend(pre: seq<Msg>, last: Msg)
    ensures var date := DateOf(last.timestamp);
            Dates(pre + [last]) == Dates(pre) + (if date == "" then {} else {date})
  {
    assert forall m :: m in pre + [last] <==> m in pre || m == last;
  }

  lemma KeysAfterOneMore(names: set<string>, limit: int, dates: set<string>, x: string)
    requires x != ""
    ensures KeysAfter(names, limit, dates + {x}) == Joined(KeysAfter(names, limit, dates), limit, x)
    ensures x in KeysAfter(names, limit, dates + {x}) - KeysAfter(names, limit, dates) ==> x !in names + dates
  {
    var seen := names + dates;
    assert names + (dates + {x}) == seen + {x};
    if dates <= names {
      assert seen == names;
      assert x in names ==> dates + {x} <= names;
    } else {
      RetainedAbsorbs(seen, x, limit);
      if x in seen { assert seen + {x} == seen; }
    }
  }

  /** One more message, on names; a day that joins was never seen before: what was evicted stays out. */
  lemma JoinsOnlyIfNew(names: set<string>, limit: int, pre: seq<Msg>, last: Msg)
    ensures var before, after := KeysAfter(names, limit, Dates(pre)), KeysAfter(names, limit, Dates(pre + [last]));
            && after == Joined(before, limit, DateOf(last.timestamp))
            && (DateOf(last.timestamp) in after - before ==> DateOf(last.timestamp) !in names + Dates(pre))
  {
    var date := DateOf(last.timestamp);
    DatesAppend(pre, last);
    if date != "" {
      KeysAfterOneMore(names, limit, Dates(pre), date);
    } else {
      assert Dates(pre + [last]) == Dates(pre);
    }
  }

  lemma FlattenAppend(pre: seq<Msg>, last: Msg, d: string)
    ensures Flatten(pre + [last], d)
         == Flatten(pre, d) + RowsFor(last, d)
  {
    assert (pre + [last])[..|pre|] == pre;
  }

  /** One write, stated at once: the names, and each table's rows. */
  ghost predicate WritesTo(t: Tables, limit: int, m: Msg, t': Tables) {
    && t'.Keys == Joined(t.Keys, limit, DateOf(m.timestamp))
    && forall d :: d in t' ==>
         t'[d] == RowsIn(t, d) + RowsFor(m, d)
  }

  lemma OneMoreWrite(t0: Tables, limit: int, pre: seq<Msg>, last: Msg)
    ensures WritesTo(AfterWrites(t0, limit, pre), limit, last, AfterWrites(t0, limit, pre + [last]))
  {
    var t := AfterWrites(t0, limit, pre);
    assert (pre + [last])[..|pre|] == pre;
    WrittenKeys(t, limit, last);
    forall d | d in Written(t, limit, last, NO_FAULTS)
      ensures Written(t, limit, last, NO_FAULTS)[d]
           == RowsIn(t, d) + RowsFor(last, d)
    {
      WrittenRows(t, limit, last, d);
    }
  }

  lemma HistoryStep(t0: Tables, limit: int, pre: seq<Msg>, last: Msg, t: Tables, t': Tables)
    requires IsTopOfHistory(t0, limit, pre, t) && WritesTo(t, limit, last, t')
    ensures IsTopOfHistory(t0, limit, pre + [last], t')
  {
    JoinsOnlyIfNew(t0.Keys, limit, pre, last);
    forall d | d in t' ensures t'[d] == RowsIn(t0, d) + Flatten(pre + [last], d) {
      var rows := RowsFor(last, d);
      if d !in t { NoDateNoRows(pre, d); }
      FlattenAppend(pre, last, d);
      ConcatAssociative(RowsIn(t0, d), Flatten(pre, d), rows);
    }
  }

  /** The database after any history of writes is a function of the start and the history alone: while the
      history brings no new day, the names it started with; then the greatest `limit` days of start and
      history, and every name that is no day. Each table holds its initial rows and then all rows ever
      written for its day, in order. */
  lemma {:induction false} RetentionIsTopOfHistory(t0: Tables, limit: int, ms: seq<Msg>)
    ensures IsTopOfHistory(t0, limit, ms, AfterWrites(t0, limit, ms))
  {
    if ms == [] {
      assert Dates(ms) <= t0.Keys;
    } else {
      var pre, last := ms[..|ms| - 1], ms[|ms| - 1];
      assert ms == pre + [last];
      RetentionIsTopOfHistory(t0, limit, pre);
      OneMoreWrite(t0, limit, pre, last);
      HistoryStep(t0, limit, pre, last, AfterWrites(t0, limit, pre), AfterWrites(t0, limit, ms));
    }
  }

  /** From a database within its limit, the tables are always the greatest `limit` days. */
  lemma RetentionWithinLimit(t0: Tables, limit: int, ms: seq<Msg>)
    requires Retained(t0.Keys, limit) == t0.Keys
    ensures AfterWrites(t0, limit, ms).Keys == Retained(t0.Keys + Dates(ms), limit)
  {
    RetentionIsTopOfHistory(t0, limit, ms);
    KeysAfterWithin(t0.Keys, limit, Dates(ms));
  }
}
