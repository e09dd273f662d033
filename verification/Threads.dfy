/** The two threads' own code, run without the other: the data branch of the message callback, and one
    pass of the reader over the queue. */
module Threads {
  import opened Messages
  import opened Queue
  import opened Tables
  import opened Parser
  import opened Database
  import opened Channels
  import opened Pipeline

  // ----- the flags, as the critical sections use them -----

  class Flags {
    var needFlush: bool
    var flushCompleted: bool

    constructor ()
      ensures Shows(Control(CIdle, RTop, false, false, false))
    {
      needFlush, flushCompleted := false, false;
    }

    /** The shared flags of a control state. */
    ghost predicate Shows(c: Control)
      reads this
    {
      needFlush == c.needFlush && flushCompleted == c.flushCompleted
    }

    /** The callback posts a request. */
    method PostRequest(ghost c: Control)
      requires Shows(c) && c.cb.CIdle?
      modifies this
      ensures Shows(RequestPosted(c))
    {
      needFlush := true;
      flushCompleted := false;
    }

    /** The callback's wait tests its condition; unless that holds, it sleeps. */
    method TestCompleted(ghost c: Control) returns (done: bool)
      requires Shows(c) && c.cb.CTesting?
      ensures Moved(c, Event.TestCompleted).value.cb == if done then CReplying else CAsleep
    {
      return flushCompleted;
    }

    /** The reader's first test decides whether it waits at all. */
    method TestNeed(ghost c: Control) returns (drain: bool)
      requires Shows(c) && c.rd.RTop?
      ensures Moved(c, Event.TestNeed).value.rd == if drain then RDraining else RAsleep
    {
      if !needFlush { return false; }
      return true;
    }

    /** Woken up, the wait ends if its condition holds or the time is over. */
    method TestNeedAgain(ghost c: Control, timedOut: bool) returns (drain: bool)
      requires Shows(c) && c.rd == RWoken(timedOut)
      ensures Moved(c, Event.TestNeedAgain).value.rd == if drain then RDraining else RAsleep
    {
      if needFlush { return true; }
      return timedOut;
    }

    /** After a drain the reader resets the flags, whether or not there was a request. */
    method ResetFlags(ghost c: Control)
      requires Shows(c) && c.rd.RFinishing?
      modifies this
      ensures Shows(RequestCompleted(c))
    {
      needFlush := false;
      flushCompleted := true;
    }
  }

  // ----- the queue and the databases -----

  /** A payload that parses as JSON and is well-formed is enqueued as the message it means; any other is
      discarded. `None` is text that does not parse. */
  method OnData(mq: MessageQueue, payload: Option<Json>)
    requires mq.Valid()
    modifies mq, mq.buffer
    ensures mq.Valid()
    ensures mq.Contents() == match Accept(payload)
                             case None => old(mq.Contents())
                             case Some(m) => Push(old(mq.Contents()), m, mq.buffer.Length)
  {
    if payload.None? { return; }
    var ok, msg := ParseModbusMsg(payload.value);
    if ok { var _ := mq.Write(msg); }
  }

  /** One turn of the drain loop: the read that is its condition and, if that succeeds, the write that is
      its body. What `writeMessage` returns is only logged. `connected` is false only if a connection was
      needed and failed to open. */
  method DrainOne(mq: MessageQueue, db: DataBaseManager, f: Faults) returns (more: bool, ghost connected: bool)
    requires mq.Valid() && db.Valid()
    modifies mq, db, db.disk.Values
    ensures mq.Valid() && db.Valid() && fresh(db.disk.Values - old(db.disk.Values))
    ensures more <==> old(mq.Contents()) != []
    ensures mq.Contents() == if more then old(mq.Contents())[1..] else []
    ensures db.Contents() == if more then Called(db.Cfg(), old(db.Contents()), Put(old(mq.Contents())[0], connected, f))
                             else old(db.Contents())
    ensures !f.openFails ==> connected
  {
    var msg;
    more, msg := mq.Read(EMPTY_MSG);
    connected := true;
    if more {
      connected := db.Opens(msg.channel, f) || !HasChannel(db.Cfg(), msg.channel);
      var _ := db.WriteMessage(msg, f);
    }
  }

  lemma NothingAdded(q: seq<Msg>)
    ensures [] + q == q == q + []
  {
  }

  /** The calls made so far, for the first messages of the queue, and which of their SQLite calls failed. */
  ghost predicate CallsFor(calls: seq<Call>, done: seq<Msg>, fs: nat -> Faults) {
    && |calls| == |done|
    && forall k :: 0 <= k < |calls| ==>
         && calls[k].Put? && calls[k].msg == done[k] && calls[k].faults == fs(k)
         && (!fs(k).openFails ==> calls[k].connected)
  }

  /** Moving the head of the queue to what has been written. */
  lemma OneWrittenMore(cfg: Config, files: Files, all: seq<Msg>, done: seq<Msg>, rest: seq<Msg>,
                       calls: seq<Call>, fs: nat -> Faults, connected: bool)
    requires all == done + rest && rest != [] && CallsFor(calls, done, fs) && (!fs(|calls|).openFails ==> connected)
    ensures all == done + [rest[0]] + rest[1..]
    ensures var call := Put(rest[0], connected, fs(|calls|));
            && CallsFor(calls + [call], done + [rest[0]], fs)
            && RunCalls(cfg, files, calls + [call]) == Called(cfg, RunCalls(cfg, files, calls), call)
  {
    RunCallsOneMore(cfg, files, calls, Put(rest[0], connected, fs(|calls|)));
  }

  /** Without a producer, a pass empties the queue into the databases, in order, whatever fails: `fs(k)` is
      what fails in the k-th write, and a failing write does not stop the others. */
  method DrainQueue(mq: MessageQueue, db: DataBaseManager, fs: nat -> Faults) returns (ghost calls: seq<Call>)
    requires mq.Valid() && db.Valid()
    modifies mq, db, db.disk.Values
    ensures mq.Valid() && db.Valid() && mq.Contents() == []
    ensures CallsFor(calls, old(mq.Contents()), fs)
    ensures db.Contents() == RunCalls(db.Cfg(), old(db.Contents()), calls)
  {
    ghost var all, files, done := mq.Contents(), db.Contents(), [];
    NothingAdded(all);
    calls := [];
    var more, k := true, 0;
    while more
      invariant mq.Valid() && db.Valid() && fresh(db.disk.Values - old(db.disk.Values))
      invariant all == done + mq.Contents() && k == |calls|
      invariant !more ==> mq.Contents() == []
      invariant CallsFor(calls, done, fs) && db.Contents() == RunCalls(db.Cfg(), files, calls)
      decreases |mq.Contents()|, more
    {
      ghost var rest := mq.Contents();
      ghost var connected;
      more, connected := DrainOne(mq, db, fs(k));
      if more {
        OneWrittenMore(db.Cfg(), files, all, done, rest, calls, fs, connected);
        done, calls, k := done + [rest[0]], calls + [Put(rest[0], connected, fs(k))], k + 1;
      }
    }
    NothingAdded(done);
  }
}
