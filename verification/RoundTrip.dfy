/** Lookup undoes a write that reported success, whatever fails before and after it. */
module RoundTrip {
  import opened Messages
  import opened Sequences
  import opened Tables
  import opened Retention
  import opened Lookup
  import opened Channels
  import opened Safety

  // ----- what success means -----

  lemma {:induction false} NoInsertFails(m: Msg, fails: set<nat>, n: nat)
    requires n <= |m.registerMap| && NoneFails(fails, n)
    ensures RowsInserted(m, fails, n) == RowsOf(m)[..n]
  {
    if n > 0 {
      NoInsertFails(m, fails, n - 1);
      assert RowsOf(m)[..n] == RowsOf(m)[..n - 1] + [RowOf(m, m.registerMap[n - 1])];
    }
  }

  /** Whatever failed in it, a write that reports success has put all the message's rows at the end of the
      table named by the first eight characters of its timestamp. */
  lemma SuccessIsWhole(t: Tables, limit: int, m: Msg, f: Faults)
    requires WriteOk(t, limit, m, f) && m.registerMap != []
    ensures 8 <= |m.timestamp| && DateOf(m.timestamp) == m.timestamp[..8]
    ensures var date := m.timestamp[..8];
            date in Written(t, limit, m, f) && Written(t, limit, m, f)[date] == RowsIn(t, date) + RowsOf(m)
  {
    NoInsertFails(m, f.insertFails, |m.registerMap|);
    assert RowsOf(m)[..|m.registerMap|] == RowsOf(m);
  }

  // ----- what stays -----

  /** Table `d` is there after each of the calls. */
  ghost predicate PresentThroughout(t: Tables, limit: int, calls: seq<Call>, d: string) {
    forall j :: 0 <= j <= |calls| ==> d in AfterCalls(t, limit, calls[..j])
  }

  lemma PresentBefore(t: Tables, limit: int, calls: seq<Call>, d: string)
    requires calls != [] && PresentThroughout(t, limit, calls, d)
    ensures PresentThroughout(t, limit, calls[..|calls| - 1], d)
    ensures d in AfterCalls(t, limit, calls[..|calls| - 1]) && d in AfterCalls(t, limit, calls)
  {
    var pre := calls[..|calls| - 1];
    forall j | 0 <= j <= |pre| ensures d in AfterCalls(t, limit, pre[..j]) { assert pre[..j] == calls[..j]; }
    assert calls[..|calls|] == calls && calls[..|pre|] == pre;
  }

  /** A table that is there after each call keeps its rows, in front of what is added. */
  lemma {:induction false} RowsStay(t: Tables, limit: int, calls: seq<Call>, d: string) returns (some: seq<Row>)
    requires PresentThroughout(t, limit, calls, d)
    ensures d in t && d in AfterCalls(t, limit, calls) && AfterCalls(t, limit, calls)[d] == t[d] + some
    ensures IsSubsequence(some, Flatten(MessagesOf(calls), d))
  {
    if calls == [] {
      assert calls[..0] == calls;
      some := [];
    } else {
      var pre, last := calls[..|calls| - 1], calls[|calls| - 1];
      assert calls == pre + [last];
      PresentBefore(t, limit, calls, d);
      var before := RowsStay(t, limit, pre, d);
      var added := CalledRows(AfterCalls(t, limit, pre), limit, last, d);
      var asked := if last.Put? then RowsFor(last.msg, d) else [];
      some := before + added;
      ConcatAssociative(t[d], before, added);
      SubsequencesJoin(before, Flatten(MessagesOf(pre), d), added, asked);
      FlattenOneMore(pre, last, d);
    }
  }

  lemma {:induction false} SubsequenceLacksId(some: seq<Row>, all: seq<Row>, id: int32)
    requires IsSubsequence(some, all) && RowsWithId(all, id) == []
    ensures RowsWithId(some, id) == []
    decreases |all|
  {
    if some != [] {
      var pre := all[..|all| - 1];
      assert all == pre + [all[|all| - 1]];
      RowsWithIdConcat(pre, [all[|all| - 1]], id);
      if IsSubsequence(some, pre) {
        SubsequenceLacksId(some, pre, id);
      } else {
        SubsequenceLacksId(some[..|some| - 1], pre, id);
      }
    }
  }

  /** What was added to a day table that a lookup in `t` reads has none of the id. */
  lemma AddedLacksId(t: Tables, id: int32, ms: seq<Msg>, d: string, some: seq<Row>)
    requires OthersIn(t, id, ms) && d in t && IsDayName(d) && IsSubsequence(some, Flatten(ms, d))
    ensures RowsWithId(some, id) == []
  {
    OtherIdsLeaveNoRows(ms, d, id);
    SubsequenceLacksId(some, Flatten(ms, d), id);
  }

  /** A table that started without rows of the id, or had none at all, still has none. */
  lemma StillLacksId(t: Tables, limit: int, calls: seq<Call>, id: int32, d: string)
    requires d in AfterCalls(t, limit, calls) && IsDayName(d) && RowsWithId(RowsIn(t, d), id) == []
    requires OthersIn(AfterCalls(t, limit, calls), id, MessagesOf(calls))
    ensures RowsWithId(AfterCalls(t, limit, calls)[d], id) == []
  {
    var rows := AfterCalls(t, limit, calls)[d];
    TablesAreSafe(t, limit, calls, d);
    var some :| IsSubsequence(some, Flatten(MessagesOf(calls), d)) && (rows == RowsIn(t, d) + some || rows == some);
    AddedLacksId(AfterCalls(t, limit, calls), id, MessagesOf(calls), d, some);
    RowsWithIdConcat(RowsIn(t, d), some, id);
  }

  /** A table that holds exactly the message's rows for its id, and stays, still does. */
  lemma StillHolds(t: Tables, limit: int, calls: seq<Call>, m: Msg)
    requires var date := DateOf(m.timestamp);
             && IsDayName(date) && PresentThroughout(t, limit, calls, date)
             && RowsWithId(RowsIn(t, date), m.id) == RowsOf(m)
    requires OthersIn(AfterCalls(t, limit, calls), m.id, MessagesOf(calls))
    ensures var date := DateOf(m.timestamp);
            && date in AfterCalls(t, limit, calls)
            && RowsWithId(AfterCalls(t, limit, calls)[date], m.id) == RowsOf(m)
  {
    var date := DateOf(m.timestamp);
    var some := RowsStay(t, limit, calls, date);
    AddedLacksId(AfterCalls(t, limit, calls), m.id, MessagesOf(calls), date, some);
    RowsWithIdConcat(t[date], some, m.id);
  }

  // ----- the round trip -----

  /** In these tables only the message itself can answer for its id, now and after the calls: no day table
      that a final lookup reads had a row of the id before, and no other message of the id went there. */
  ghost predicate OnlyOneAnswers(before: Tables, final: Tables, m: Msg, calls: seq<Call>) {
    && (forall d :: d in final && IsDayName(d) ==> RowsWithId(RowsIn(before, d), m.id) == [])
    && OthersIn(final, m.id, MessagesOf(calls))
  }

  lemma SuccessThenHeld(t: Tables, limit: int, m: Msg, f: Faults, calls: seq<Call>)
    requires IsDayName(DateOf(m.timestamp)) && m.registerMap != [] && WriteOk(t, limit, m, f)
    requires PresentThroughout(Written(t, limit, m, f), limit, calls, DateOf(m.timestamp))
    requires OnlyOneAnswers(t, AfterCalls(Written(t, limit, m, f), limit, calls), m, calls)
    ensures OnlyHolds(AfterCalls(Written(t, limit, m, f), limit, calls), m)
  {
    var t1, date := Written(t, limit, m, f), DateOf(m.timestamp);
    var final := AfterCalls(t1, limit, calls);
    assert calls[..|calls|] == calls && date in final;
    SuccessIsWhole(t, limit, m, f);
    AllHaveId(RowsOf(m), m.id);
    RowsWithIdConcat(RowsIn(t, date), RowsOf(m), m.id);
    StillHolds(t1, limit, calls, m);
    forall d | d in final && IsDayName(d) && d != date ensures RowsWithId(final[d], m.id) == [] {
      OtherDayUntouched(t, limit, m, f, d);
      StillLacksId(t1, limit, calls, m.id, d);
    }
  }

  lemma OtherDayUntouched(t: Tables, limit: int, m: Msg, f: Faults, d: string)
    requires d != DateOf(m.timestamp)
    ensures RowsIn(Written(t, limit, m, f), d) == RowsIn(t, d) || RowsIn(Written(t, limit, m, f), d) == []
  {
    if d in Written(t, limit, m, f) {
      var added := WrittenRowsUnderFaults(t, limit, m, f, d);
      assert RowsIn(t, d) + [] == RowsIn(t, d);
    }
  }

  /** After a write that reported success, and any further calls, whatever fails in any of them: while the
      message's day stays and nothing else in the retained days has its id, a lookup that reads its table
      reports the message, cut at NULs. */
  lemma SuccessThenSelect(t: Tables, limit: int, m: Msg, f: Faults, calls: seq<Call>, g: Faults,
                          before: Msg, found: bool, out: Msg)
    requires IsDayName(DateOf(m.timestamp)) && m.registerMap != [] && WriteOk(t, limit, m, f)
    requires PresentThroughout(Written(t, limit, m, f), limit, calls, DateOf(m.timestamp))
    requires var final := AfterCalls(Written(t, limit, m, f), limit, calls);
             && OnlyOneAnswers(t, final, m, calls)
             && DateOf(m.timestamp) in Listing(final.Keys, g) && DateOf(m.timestamp) !in g.selectFails
             && Selects(final, m.channel, m.id, g, before, found, out)
    ensures found && out == Stored(m)
    ensures out == m <==> NulFree(m)
  {
    SuccessThenHeld(t, limit, m, f, calls);
    OnlyHoldsSelects(AfterCalls(Written(t, limit, m, f), limit, calls), m, g, before, found, out);
    StoredIsSameIff(m);
  }

  // ----- inside a run of calls -----

  lemma {:induction false} AfterCallsSplit(t: Tables, limit: int, calls: seq<Call>, j: nat)
    requires j <= |calls|
    ensures AfterCalls(t, limit, calls) == AfterCalls(AfterCalls(t, limit, calls[..j]), limit, calls[j..])
  {
    if j == |calls| {
      assert calls[..j] == calls;
    } else {
      var pre := calls[..|calls| - 1];
      AfterCallsSplit(t, limit, pre, j);
      assert pre[..j] == calls[..j] && calls[j..] == pre[j..] + [calls[|calls| - 1]];
      assert calls[j..][..|calls[j..]| - 1] == pre[j..];
    }
  }

  /** Call `k` wrote message `m` with success, and its day has been there ever since. */
  ghost predicate PutForGood(t0: Tables, limit: int, calls: seq<Call>, k: nat, m: Msg) {
    && k < |calls| && calls[k].Put? && calls[k].msg == m && calls[k].connected
    && WriteOk(AfterCalls(t0, limit, calls[..k]), limit, m, calls[k].faults)
    && forall j :: k < j <= |calls| ==> DateOf(m.timestamp) in AfterCalls(t0, limit, calls[..j])
  }

  /** What is there after each of the first calls from `k` on is there throughout the calls from `k` on. */
  lemma PresentFrom(t0: Tables, limit: int, calls: seq<Call>, k: nat, d: string)
    requires k <= |calls| && forall j :: k <= j <= |calls| ==> d in AfterCalls(t0, limit, calls[..j])
    ensures PresentThroughout(AfterCalls(t0, limit, calls[..k]), limit, calls[k..], d)
  {
    var rest := calls[k..];
    forall j | 0 <= j <= |rest| ensures d in AfterCalls(AfterCalls(t0, limit, calls[..k]), limit, rest[..j]) {
      var upto := calls[..k + j];
      AfterCallsSplit(t0, limit, upto, k);
      assert upto[..k] == calls[..k] && upto[k..] == rest[..j];
    }
  }

  lemma AfterPut(t0: Tables, limit: int, calls: seq<Call>, k: nat)
    requires k < |calls| && calls[k].Put? && calls[k].connected
    ensures AfterCalls(t0, limit, calls[..k + 1])
         == Written(AfterCalls(t0, limit, calls[..k]), limit, calls[k].msg, calls[k].faults)
  {
    assert calls[..k + 1][..k] == calls[..k];
  }

  lemma PutThenPresent(t0: Tables, limit: int, calls: seq<Call>, k: nat, m: Msg)
    requires PutForGood(t0, limit, calls, k, m)
    ensures var t1 := Written(AfterCalls(t0, limit, calls[..k]), limit, m, calls[k].faults);
            && AfterCalls(t0, limit, calls) == AfterCalls(t1, limit, calls[k + 1..])
            && PresentThroughout(t1, limit, calls[k + 1..], DateOf(m.timestamp))
  {
    AfterPut(t0, limit, calls, k);
    AfterCallsSplit(t0, limit, calls, k + 1);
    PresentFrom(t0, limit, calls, k + 1, DateOf(m.timestamp));
  }

  /** Among the initial rows and all messages of the calls, only call `k` concerns this id in the days that
      a final lookup reads. */
  ghost predicate OnlyPutOf(t0: Tables, final: Tables, calls: seq<Call>, k: nat, id: int32)
    requires k < |calls|
  {
    && (forall d :: d in final && IsDayName(d) ==> RowsWithId(RowsIn(t0, d), id) == [])
    && OthersIn(final, id, MessagesOf(calls[..k])) && OthersIn(final, id, MessagesOf(calls[k + 1..]))
  }

  lemma BeforeLacksId(t0: Tables, limit: int, calls: seq<Call>, final: Tables, id: int32, d: string)
    requires d in final && IsDayName(d) && RowsWithId(RowsIn(t0, d), id) == []
    requires OthersIn(final, id, MessagesOf(calls))
    ensures RowsWithId(RowsIn(AfterCalls(t0, limit, calls), d), id) == []
  {
    if d in AfterCalls(t0, limit, calls) {
      var rows := AfterCalls(t0, limit, calls)[d];
      TablesAreSafe(t0, limit, calls, d);
      var some :| IsSubsequence(some, Flatten(MessagesOf(calls), d)) && (rows == RowsIn(t0, d) + some || rows == some);
      AddedLacksId(final, id, MessagesOf(calls), d, some);
      RowsWithIdConcat(RowsIn(t0, d), some, id);
    }
  }

  /** The round trip inside any run of calls on a channel, whatever fails. */
  lemma PutThenSelect(t0: Tables, limit: int, calls: seq<Call>, k: nat, m: Msg, g: Faults,
                      before: Msg, found: bool, out: Msg)
    requires PutForGood(t0, limit, calls, k, m) && IsDayName(DateOf(m.timestamp)) && m.registerMap != []
    requires var final := AfterCalls(t0, limit, calls);
             && OnlyPutOf(t0, final, calls, k, m.id)
             && DateOf(m.timestamp) in Listing(final.Keys, g) && DateOf(m.timestamp) !in g.selectFails
             && Selects(final, m.channel, m.id, g, before, found, out)
    ensures found && out == Stored(m)
  {
    var t, final := AfterCalls(t0, limit, calls[..k]), AfterCalls(t0, limit, calls);
    PutThenPresent(t0, limit, calls, k, m);
    forall d | d in final && IsDayName(d) ensures RowsWithId(RowsIn(t, d), m.id) == [] {
      BeforeLacksId(t0, limit, calls[..k], final, m.id, d);
    }
    SuccessThenSelect(t, limit, m, calls[k].faults, calls[k + 1..], g, before, found, out);
  }
}
