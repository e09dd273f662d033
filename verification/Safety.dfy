/** What holds of a channel's tables after any calls, whatever fails in them. */
module Safety {
  import opened Messages
  import opened Sequences
  import opened Tables
  import opened Retention
  import opened Channels

  lemma {:induction false} InsertedAreSome(m: Msg, fails: set<nat>, n: nat)
    requires n <= |m.registerMap|
    ensures IsSubsequence(RowsInserted(m, fails, n), RowsOf(m)[..n])
  {
    if n > 0 {
      var row := RowOf(m, m.registerMap[n - 1]);
      InsertedAreSome(m, fails, n - 1);
      assert RowsOf(m)[..n] == RowsOf(m)[..n - 1] + [row];
      assert IsSubsequence([], [row]) && IsSubsequence([row], [row]);
      SubsequencesJoin(RowsInserted(m, fails, n - 1), RowsOf(m)[..n - 1], if n - 1 in fails then [] else [row], [row]);
    }
  }

  /** A table's rows are its initial ones, unless it was dropped since, and then rows of the messages written
      for its day, in order, some perhaps missing. */
  ghost predicate HoldsOnly(rows: seq<Row>, initial: seq<Row>, written: seq<Row>) {
    exists some :: IsSubsequence(some, written) && (rows == initial + some || rows == some)
  }

  lemma HoldsOnlyAppend(rows: seq<Row>, initial: seq<Row>, written: seq<Row>, added: seq<Row>, asked: seq<Row>)
    requires HoldsOnly(rows, initial, written) && IsSubsequence(added, asked)
    ensures HoldsOnly(rows + added, initial, written + asked)
  {
    var some :| IsSubsequence(some, written) && (rows == initial + some || rows == some);
    SubsequencesJoin(some, written, added, asked);
    ConcatAssociative(initial, some, added);
    assert rows + added == initial + (some + added) || rows + added == some + added;
  }

  /** Whatever fails in a write, a table it leaves has its old rows and then some of the message's. */
  lemma WrittenRowsUnderFaults(t: Tables, limit: int, m: Msg, f: Faults, d: string) returns (added: seq<Row>)
    requires d in Written(t, limit, m, f)
    ensures Written(t, limit, m, f)[d] == RowsIn(t, d) + added
    ensures IsSubsequence(added, RowsFor(m, d))
  {
    var date := DateOf(m.timestamp);
    added := [];
    if date != "" && d == date && Ensured(t, limit, date, f).Some? {
      added := RowsInserted(m, f.insertFails, |m.registerMap|);
      InsertedAreSome(m, f.insertFails, |m.registerMap|);
      assert RowsOf(m)[..|m.registerMap|] == RowsOf(m);
    }
  }

  /** One call, on rows. */
  lemma CalledRows(t: Tables, limit: int, call: Call, d: string) returns (added: seq<Row>)
    requires d in CalledOn(t, limit, call)
    ensures CalledOn(t, limit, call)[d] == RowsIn(t, d) + added
    ensures IsSubsequence(added, if call.Put? then RowsFor(call.msg, d) else [])
  {
    added := [];
    if call.Put? && call.connected { added := WrittenRowsUnderFaults(t, limit, call.msg, call.faults, d); }
  }

  /** Whatever fails and whatever is dropped, no table ever holds a row that was neither there at the start
      nor written for its day, nor one out of order or twice. */
  lemma {:induction false} TablesAreSafe(t0: Tables, limit: int, calls: seq<Call>, d: string)
    requires d in AfterCalls(t0, limit, calls)
    ensures HoldsOnly(AfterCalls(t0, limit, calls)[d], RowsIn(t0, d), Flatten(MessagesOf(calls), d))
  {
    if calls == [] {
      assert RowsIn(t0, d) == RowsIn(t0, d) + [];
      NoneIsSubsequence<Row>([]);
    } else {
      var pre, last := calls[..|calls| - 1], calls[|calls| - 1];
      var t := AfterCalls(t0, limit, pre);
      assert calls == pre + [last];
      if d in t { TablesAreSafe(t0, limit, pre, d); } else { NoneIsSubsequence(Flatten(MessagesOf(pre), d)); }
      var added := CalledRows(t, limit, last, d);
      HoldsOnlyAppend(RowsIn(t, d), RowsIn(t0, d), Flatten(MessagesOf(pre), d),
                      added, if last.Put? then RowsFor(last.msg, d) else []);
      FlattenOneMore(pre, last, d);
    }
  }

  lemma FlattenOneMore(pre: seq<Call>, last: Call, d: string)
    ensures Flatten(MessagesOf(pre + [last]), d)
         == Flatten(MessagesOf(pre), d) + (if last.Put? then RowsFor(last.msg, d) else [])
  {
    MessagesOfOneMore(pre, last);
    if last.Put? {
      FlattenAppend(MessagesOf(pre), last.msg, d);
    } else {
      assert MessagesOf(pre) + [] == MessagesOf(pre);
    }
  }
}
