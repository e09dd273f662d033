/** From payloads to rows: what the databases hold after any run. */
module EndToEnd {
  import opened Messages
  import opened Sequences
  import opened Tables
  import opened Retention
  import opened Lookup
  import opened Parser
  import opened Database
  import opened Channels
  import opened Pipeline
  import opened Conservation
  import opened Handshake
  import opened Safety
  import opened RoundTrip

  /** The messages that all payloads so far amount to. */
  ghost function AcceptedOf(payloads: seq<Option<Json>>): seq<Msg> {
    if payloads == [] then []
    else
      var a := Accept(payloads[|payloads| - 1]);
      AcceptedOf(payloads[..|payloads| - 1]) + (if a.Some? then [a.value] else [])
  }

  predicate Indexes(accepted: seq<Msg>, a: seq<int>) { forall k :: 0 <= k < |a| ==> 0 <= a[k] < |accepted| }

  /** The sub-stream of the accepted messages at the given indices. */
  function At(accepted: seq<Msg>, a: seq<int>): seq<Msg>
    requires Indexes(accepted, a)
  {
    if a == [] then [] else At(accepted, a[..|a| - 1]) + [accepted[a[|a| - 1]]]
  }

  lemma AtAppend(accepted: seq<Msg>, pre: seq<int>, i: nat)
    requires Indexes(accepted, pre) && i < |accepted|
    ensures Indexes(accepted, pre + [i]) && At(accepted, pre + [i]) == At(accepted, pre) + [accepted[i]]
  {
    assert (pre + [i])[..|pre|] == pre;
  }

  /** Later messages do not matter. */
  lemma {:induction false} AtOfMore(accepted: seq<Msg>, more: seq<Msg>, a: seq<int>)
    requires Indexes(accepted, a)
    ensures Indexes(accepted + more, a) && At(accepted + more, a) == At(accepted, a)
  {
    if a != [] { AtOfMore(accepted, more, a[..|a| - 1]); }
  }

  /** The databases are the outcome of the calls so far, and those were for the messages written so far. */
  ghost predicate StoreInv(sys: System, files: Files, s: State) {
    && Indexes(s.stream.accepted, s.stream.written)
    && s.stream.accepted == AcceptedOf(s.payloads)
    && s.files == RunCalls(sys.cfg, files, s.calls)
    && MessagesOf(s.calls) == At(s.stream.accepted, s.stream.written)
  }

  lemma DeliveredKeepsStore(sys: System, files: Files, s: State, payload: Option<Json>)
    requires Fits(sys, s.stream) && StoreInv(sys, files, s)
    ensures StoreInv(sys, files, Delivered(sys, s, payload))
  {
    var s', a := Delivered(sys, s, payload), Accept(payload);
    assert s'.payloads[..|s'.payloads| - 1] == s.payloads;
    assert s'.stream.accepted == s.stream.accepted + (if a.Some? then [a.value] else []);
    AtOfMore(s.stream.accepted, if a.Some? then [a.value] else [], s.stream.written);
  }

  lemma WrittenKeepsStore(sys: System, files: Files, s: State, connected: bool, f: Faults)
    requires StreamInv(sys, s) && s.stream.inHand.Some? && StoreInv(sys, files, s)
    ensures StoreInv(sys, files, OneWritten(sys, s, connected, f))
  {
    var st := s.stream;
    var s' := OneWritten(sys, s, connected, f);
    var last := st.handed[|st.handed| - 1];
    assert st.handed == st.written + [last];
    AtAppend(st.accepted, st.written, last);
    RunCallsOneMore(sys.cfg, files, s.calls, s'.calls[|s.calls|]);
    MessagesOfOneMore(s.calls, s'.calls[|s.calls|]);
  }

  lemma StepKeepsStore(sys: System, files: Files, s: State, e: Event)
    requires Fits(sys, s.stream) && StreamInv(sys, s) && StoreInv(sys, files, s) && Step(sys, s, e).Some?
    ensures StoreInv(sys, files, Step(sys, s, e).value)
  {
    match e
    case Deliver(payload) => DeliveredKeepsStore(sys, files, s, payload);
    case WriteOne(connected, f) => WrittenKeepsStore(sys, files, s, connected, f);
    case _ => OthersKeepStore(sys, s, e);
  }

  /** Only deliveries and writes concern what has been written. */
  lemma OthersKeepStore(sys: System, s: State, e: Event)
    requires Fits(sys, s.stream) && Step(sys, s, e).Some? && !e.Deliver? && !e.WriteOne?
    ensures var s' := Step(sys, s, e).value;
            && s'.stream.accepted == s.stream.accepted && s'.stream.written == s.stream.written
            && s'.payloads == s.payloads && s'.files == s.files && s'.calls == s.calls
  {
  }

  lemma {:induction false} RunKeepsStore(sys: System, files: Files, es: seq<Event>)
    requires 0 < sys.capacity && Run(sys, Init(files), es).Some?
    ensures StoreInv(sys, files, Run(sys, Init(files), es).value)
  {
    if es != [] {
      RunConserves(sys, files, es[..|es| - 1]);
      RunKeepsStore(sys, files, es[..|es| - 1]);
      StepKeepsStore(sys, files, Run(sys, Init(files), es[..|es| - 1]).value, es[|es| - 1]);
    } else {
      assert At([], []) == MessagesOf([]);
    }
  }

  /** Of the first `n` messages, those that were not overwritten, in order. */
  function Kept(accepted: seq<Msg>, overwritten: map<int, int>, n: int): seq<Msg>
    requires n <= |accepted|
  {
    if n <= 0 then []
    else if n - 1 in overwritten then Kept(accepted, overwritten, n - 1)
    else Kept(accepted, overwritten, n - 1) + [accepted[n - 1]]
  }

  /** The messages of channel `c` that were neither overwritten nor are still queued, in acceptance order. */
  function StoredOn(st: Stream, c: int): seq<Msg> { OfChannel(Kept(st.accepted, st.overwritten, Front(st)), c) }

  /** Of the first `n` messages, exactly those not overwritten were handed out, in increasing order. */
  ghost predicate HandedOut(handed: seq<int>, overwritten: map<int, int>, n: int) {
    && Increasing(handed)
    && (forall k :: 0 <= k < |handed| ==> 0 <= handed[k] < n)
    && (forall i {:trigger i in overwritten} :: 0 <= i < n ==> (i in handed <==> i !in overwritten))
  }

  /** The indices below `n` that were not overwritten. */
  function KeptIndexes(overwritten: map<int, int>, n: int): seq<int> {
    if n <= 0 then []
    else if n - 1 in overwritten then KeptIndexes(overwritten, n - 1)
    else KeptIndexes(overwritten, n - 1) + [n - 1]
  }

  lemma {:induction false} HandedIndexes(handed: seq<int>, overwritten: map<int, int>, n: nat)
    requires HandedOut(handed, overwritten, n)
    ensures handed == KeptIndexes(overwritten, n)
    decreases n
  {
    if n == 0 {
      NothingBelowZero(handed, overwritten, n);
    } else if n - 1 in overwritten {
      LastOverwritten(handed, overwritten, n - 1);
      HandedIndexes(handed, overwritten, n - 1);
    } else {
      var pre := LastHanded(handed, overwritten, n - 1);
      HandedIndexes(pre, overwritten, n - 1);
    }
  }

  lemma {:induction false} KeptIndexesFit(accepted: seq<Msg>, overwritten: map<int, int>, n: nat)
    requires n <= |accepted|
    ensures Indexes(accepted, KeptIndexes(overwritten, n))
  {
    if n > 0 { KeptIndexesFit(accepted, overwritten, n - 1); }
  }

  lemma {:induction false} AtKeptIndexes(accepted: seq<Msg>, overwritten: map<int, int>, n: nat)
    requires n <= |accepted| && Indexes(accepted, KeptIndexes(overwritten, n))
    ensures At(accepted, KeptIndexes(overwritten, n)) == Kept(accepted, overwritten, n)
  {
    if n > 0 {
      KeptIndexesFit(accepted, overwritten, n - 1);
      AtKeptIndexes(accepted, overwritten, n - 1);
      if n - 1 !in overwritten { AtAppend(accepted, KeptIndexes(overwritten, n - 1), n - 1); }
    }
  }

  /** What was handed out are the messages not overwritten. */
  lemma HandedAreKept(accepted: seq<Msg>, handed: seq<int>, overwritten: map<int, int>, n: nat)
    requires n <= |accepted| && HandedOut(handed, overwritten, n)
    ensures Indexes(accepted, handed) && At(accepted, handed) == Kept(accepted, overwritten, n)
  {
    HandedIndexes(handed, overwritten, n);
    KeptIndexesFit(accepted, overwritten, n);
    AtKeptIndexes(accepted, overwritten, n);
  }

  lemma NothingBelowZero(handed: seq<int>, overwritten: map<int, int>, n: int)
    requires HandedOut(handed, overwritten, n)
    ensures handed != [] ==> 0 < n
  {
    if handed != [] { assert 0 <= handed[0] < n; }
  }

  lemma LastOverwritten(handed: seq<int>, overwritten: map<int, int>, last: nat)
    requires HandedOut(handed, overwritten, last + 1) && last in overwritten
    ensures HandedOut(handed, overwritten, last)
  {
    forall k | 0 <= k < |handed| ensures handed[k] < last { assert handed[k] in handed; }
  }

  lemma GreatestIsLast(handed: seq<int>, last: int)
    requires Increasing(handed) && last in handed && forall k :: 0 <= k < |handed| ==> handed[k] <= last
    ensures handed[|handed| - 1] == last
  {
    var k :| 0 <= k < |handed| && handed[k] == last;
    LastIsGreatest(handed, k);
  }

  lemma LastIsGreatest(a: seq<int>, k: nat)
    requires Increasing(a) && k < |a|
    ensures a[k] <= a[|a| - 1]
  {
  }

  lemma LastHanded(handed: seq<int>, overwritten: map<int, int>, last: nat) returns (pre: seq<int>)
    requires HandedOut(handed, overwritten, last + 1) && last !in overwritten
    ensures handed == pre + [last] && HandedOut(pre, overwritten, last)
  {
    pre := handed[..|handed| - 1];
    GreatestIsLast(handed, last);
    assert handed == pre + [last];
    forall k | 0 <= k < |pre| ensures 0 <= pre[k] < last { assert handed[k] < handed[|pre|]; }
    forall i | 0 <= i < last ensures i in handed <==> i in pre { InAppended(pre, last, i); }
  }

  lemma InAppended(pre: seq<int>, last: int, i: int)
    requires i != last
    ensures i in pre + [last] <==> i in pre
  {
  }

  /** What was handed to the reader is what was neither overwritten nor is queued. */
  lemma ConservedKeeps(sys: System, s: State)
    requires StreamInv(sys, s)
    ensures Indexes(s.stream.accepted, s.stream.handed)
    ensures At(s.stream.accepted, s.stream.handed) == Kept(s.stream.accepted, s.stream.overwritten, Front(s.stream))
  {
    HandedAreKept(s.stream.accepted, s.stream.handed, s.stream.overwritten, Front(s.stream));
  }

  /** A channel's tables are the outcome of the calls on it, and those were for its messages. */
  lemma ChannelOutcome(sys: System, files: Files, es: seq<Event>, s: State, c: int) returns (calls: seq<Call>)
    requires 0 < sys.capacity && Run(sys, Init(files), es) == Some(s)
    requires OwnFiles(sys.cfg) && HasChannel(sys.cfg, c)
    ensures ChannelTables(sys.cfg, s.files, c)
         == AfterCalls(ChannelTables(sys.cfg, files, c), sys.cfg.limit, calls)
    ensures Indexes(s.stream.accepted, s.stream.written)
    ensures MessagesOf(calls) == OfChannel(At(s.stream.accepted, s.stream.written), c)
    ensures AllClean(s.calls) ==> AllClean(calls)
  {
    RunKeepsStore(sys, files, es);
    EachChannelOnItsOwn(sys.cfg, files, s.calls, c);
    MessagesOfChannel(s.calls, c);
    if AllClean(s.calls) { CleanOnChannel(s.calls, c); }
    calls := CallsOn(s.calls, c);
  }

  /** After any run without database failures, whenever the reader holds no message: what was accepted is
      what the payloads parse to; the queue is its tail; and each channel's tables are the retention of the
      messages accepted for it that were neither overwritten nor are still queued. */
  lemma PayloadsToTables(sys: System, files: Files, es: seq<Event>, s: State, c: int)
    requires 0 < sys.capacity && Run(sys, Init(files), es) == Some(s) && AllClean(s.calls) && !s.ctl.rd.RWriting?
    requires OwnFiles(sys.cfg) && HasChannel(sys.cfg, c)
    ensures s.stream.accepted == AcceptedOf(s.payloads)
    ensures 0 <= Front(s.stream) && s.stream.queue == s.stream.accepted[Front(s.stream)..]
    ensures IsTopOfHistory(ChannelTables(sys.cfg, files, c), sys.cfg.limit, StoredOn(s.stream, c),
                           ChannelTables(sys.cfg, s.files, c))
  {
    RunConserves(sys, files, es);
    RunKeepsStore(sys, files, es);
    ConservedKeeps(sys, s);
    var calls := ChannelOutcome(sys, files, es, s, c);
    CleanCallsAreWrites(ChannelTables(sys.cfg, files, c), sys.cfg.limit, calls);
    RetentionIsTopOfHistory(ChannelTables(sys.cfg, files, c), sys.cfg.limit, StoredOn(s.stream, c));
  }

  lemma WrittenIsSafe(sys: System, files: Files, es: seq<Event>, s: State, c: int, d: string)
    requires 0 < sys.capacity && Run(sys, Init(files), es) == Some(s)
    requires OwnFiles(sys.cfg) && HasChannel(sys.cfg, c) && d in ChannelTables(sys.cfg, s.files, c)
    ensures Indexes(s.stream.accepted, s.stream.written)
    ensures HoldsOnly(ChannelTables(sys.cfg, s.files, c)[d], RowsIn(ChannelTables(sys.cfg, files, c), d),
                      Flatten(OfChannel(At(s.stream.accepted, s.stream.written), c), d))
  {
    var calls := ChannelOutcome(sys, files, es, s, c);
    TablesAreSafe(ChannelTables(sys.cfg, files, c), sys.cfg.limit, calls, d);
  }

  /** After any run at all, whatever failed: no table holds a row that was neither there at the start nor
      belongs to a message that left the queue for this channel and day, nor one out of order or twice. */
  lemma AnyRunIsSafe(sys: System, files: Files, es: seq<Event>, s: State, c: int, d: string)
    requires 0 < sys.capacity && Run(sys, Init(files), es) == Some(s)
    requires OwnFiles(sys.cfg) && HasChannel(sys.cfg, c) && d in ChannelTables(sys.cfg, s.files, c)
    ensures HoldsOnly(ChannelTables(sys.cfg, s.files, c)[d], RowsIn(ChannelTables(sys.cfg, files, c), d),
                      Flatten(StoredOn(s.stream, c), d))
  {
    RunConserves(sys, files, es);
    WrittenIsSafe(sys, files, es, s, c, d);
    SafeWithHand(sys, s, ChannelTables(sys.cfg, s.files, c)[d], RowsIn(ChannelTables(sys.cfg, files, c), d), c, d);
  }

  lemma SafeWithHand(sys: System, s: State, rows: seq<Row>, initial: seq<Row>, c: int, d: string)
    requires StreamInv(sys, s) && Indexes(s.stream.accepted, s.stream.written)
    requires HoldsOnly(rows, initial, Flatten(OfChannel(At(s.stream.accepted, s.stream.written), c), d))
    ensures HoldsOnly(rows, initial, Flatten(StoredOn(s.stream, c), d))
  {
    KeptIsWritten(sys, s);
    match s.stream.inHand
    case None => assert At(s.stream.accepted, s.stream.written) + [] == At(s.stream.accepted, s.stream.written);
    case Some(m) => OneMoreInHand(rows, initial, At(s.stream.accepted, s.stream.written), m, c, d);
  }

  /** All of it has been written, but for the message in the reader's hand. */
  lemma KeptIsWritten(sys: System, s: State)
    requires StreamInv(sys, s) && Indexes(s.stream.accepted, s.stream.written)
    ensures Kept(s.stream.accepted, s.stream.overwritten, Front(s.stream))
         == At(s.stream.accepted, s.stream.written)
            + (if s.stream.inHand.Some? then [s.stream.inHand.value] else [])
  {
    ConservedKeeps(sys, s);
    if s.stream.inHand.Some? {
      var last := s.stream.handed[|s.stream.handed| - 1];
      assert s.stream.handed == s.stream.written + [last];
      AtAppend(s.stream.accepted, s.stream.written, last);
    }
  }

  lemma OneMoreInHand(rows: seq<Row>, initial: seq<Row>, ms: seq<Msg>, m: Msg, c: int, d: string)
    requires HoldsOnly(rows, initial, Flatten(OfChannel(ms, c), d))
    ensures HoldsOnly(rows, initial, Flatten(OfChannel(ms + [m], c), d))
  {
    OfChannelOneMore(ms, m, c);
    if m.channel == c {
      FlattenAppend(OfChannel(ms, c), m, d);
      NoneIsSubsequence(RowsFor(m, d));
      HoldsOnlyAppend(rows, initial, Flatten(OfChannel(ms, c), d), [], RowsFor(m, d));
      assert rows + [] == rows;
    } else {
      assert OfChannel(ms, c) + [] == OfChannel(ms, c);
    }
  }

  /** What a reply to a reboot request says about the databases: without failures, if all that slipped in
      before the request has been read since and none of it is in the reader's hand, each channel's tables
      are the retention of every message ever accepted for it and not overwritten. */
  lemma ReplyMeansStored(sys: System, files: Files, es: seq<Event>, s: State, c: int)
    requires 0 < sys.capacity && Run(sys, Init(files), es) == Some(s) && AllClean(s.calls) && s.ctl.cb.CReplying?
    requires s.marks.readsSince == Min(sys.capacity, s.marks.postedAt - s.marks.completedAt) && !s.ctl.rd.RWriting?
    requires OwnFiles(sys.cfg) && HasChannel(sys.cfg, c)
    ensures IsTopOfHistory(ChannelTables(sys.cfg, files, c), sys.cfg.limit,
                           OfChannel(Kept(s.stream.accepted, s.stream.overwritten, |s.stream.accepted|), c),
                           ChannelTables(sys.cfg, s.files, c))
  {
    ReplyFindsQueue(sys, files, es, s);
    PayloadsToTables(sys, files, es, s, c);
    assert Front(s.stream) == |s.stream.accepted|;
  }

  lemma ReplyFindsQueue(sys: System, files: Files, es: seq<Event>, s: State)
    requires 0 < sys.capacity && Run(sys, Init(files), es) == Some(s) && s.ctl.cb.CReplying?
    ensures |s.stream.queue| + s.marks.readsSince == Min(sys.capacity, s.marks.postedAt - s.marks.completedAt)
  {
    ReplyExactly(sys, files, es, s);
  }

  /** If nothing slipped in, or if only a drain that saw the request may complete it, that is so. */
  lemma PromptReplyMeansStored(sys: System, files: Files, es: seq<Event>, s: State, c: int)
    requires 0 < sys.capacity && Run(sys, Init(files), es) == Some(s) && AllClean(s.calls) && s.ctl.cb.CReplying?
    requires s.marks.completedAt == s.marks.postedAt || sys.servingOnly
    requires OwnFiles(sys.cfg) && HasChannel(sys.cfg, c)
    ensures IsTopOfHistory(ChannelTables(sys.cfg, files, c), sys.cfg.limit,
                           OfChannel(Kept(s.stream.accepted, s.stream.overwritten, |s.stream.accepted|), c),
                           ChannelTables(sys.cfg, s.files, c))
  {
    if sys.servingOnly { ServingOnlyKeepsPromise(sys, files, es, s); }
    ReplyKeepsPromiseIff(sys, files, es, s);
    ReplyMeansStored(sys, files, es, s, c);
  }

  // ----- and back -----

  lemma RowsOfAnother(pre: seq<Msg>, last: Msg, d: string, id: int32)
    requires DateOf(last.timestamp) == d ==> last.id != id
    ensures RowsWithId(Flatten(pre + [last], d), id) == RowsWithId(Flatten(pre, d), id)
  {
    FlattenAppend(pre, last, d);
    NoneHasId(RowsFor(last, d), id);
    RowsWithIdConcat(Flatten(pre, d), RowsFor(last, d), id);
  }

  lemma RowsOfTheLast(pre: seq<Msg>, last: Msg, d: string)
    requires forall m :: m in pre && DateOf(m.timestamp) == d ==> m.id != last.id
    ensures RowsWithId(Flatten(pre + [last], d), last.id) == RowsFor(last, d)
  {
    FlattenAppend(pre, last, d);
    OtherIdsLeaveNoRows(pre, d, last.id);
    AllHaveId(RowsFor(last, d), last.id);
    RowsWithIdConcat(Flatten(pre, d), RowsFor(last, d), last.id);
  }

  /** No other message of this day has the id of message `i`. */
  ghost predicate OnlyOneHasId(ms: seq<Msg>, i: nat, d: string)
    requires i < |ms|
  {
    forall j :: 0 <= j < |ms| && j != i && DateOf(ms[j].timestamp) == d ==> ms[j].id != ms[i].id
  }

  lemma {:induction false} RowsOfTheOnlyOne(ms: seq<Msg>, i: nat, d: string)
    requires i < |ms| && OnlyOneHasId(ms, i, d)
    ensures RowsWithId(Flatten(ms, d), ms[i].id) == RowsFor(ms[i], d)
  {
    var pre, last := ms[..|ms| - 1], ms[|ms| - 1];
    assert ms == pre + [last];
    if i == |pre| {
      RowsOfTheLast(pre, last, d);
    } else {
      assert OnlyOneHasId(pre, i, d);
      RowsOfTheOnlyOne(pre, i, d);
      RowsOfAnother(pre, last, d, ms[i].id);
    }
  }

  /** Tables that retain a history hold, for an id that only one message and no initial row of the retained
      days has, the rows of that message and no others. */
  lemma OnlyOneIsHeld(t0: Tables, limit: int, ms: seq<Msg>, i: nat, t: Tables)
    requires IsTopOfHistory(t0, limit, ms, t) && i < |ms|
    requires forall d :: d in t && IsDayName(d) ==>
               OnlyOneHasId(ms, i, d) && RowsWithId(RowsIn(t0, d), ms[i].id) == []
    requires IsDayName(DateOf(ms[i].timestamp)) && DateOf(ms[i].timestamp) in t
    ensures OnlyHolds(t, ms[i])
  {
    forall d | d in t && IsDayName(d) ensures RowsWithId(t[d], ms[i].id) == RowsFor(ms[i], d) {
      RowsOfTheOnlyOne(ms, i, d);
      RowsWithIdConcat(RowsIn(t0, d), Flatten(ms, d), ms[i].id);
    }
  }

  /** A stored message with registers whose day is retained, and whose id no other message and no initial
      row of the retained days has, is what a lookup reports, with its strings cut at the first NUL. */
  lemma PayloadToLookup(sys: System, files: Files, es: seq<Event>, s: State, c: int32, i: nat,
                        before: Msg, found: bool, out: Msg)
    requires 0 < sys.capacity && Run(sys, Init(files), es) == Some(s) && AllClean(s.calls) && !s.ctl.rd.RWriting?
    requires OwnFiles(sys.cfg) && HasChannel(sys.cfg, c) && i < |StoredOn(s.stream, c)|
    requires var m, t := StoredOn(s.stream, c)[i], ChannelTables(sys.cfg, s.files, c);
             && m.registerMap != [] && IsDayName(DateOf(m.timestamp)) && DateOf(m.timestamp) in t
             && (forall d :: d in t && IsDayName(d) ==>
                   && OnlyOneHasId(StoredOn(s.stream, c), i, d)
                   && RowsWithId(RowsIn(ChannelTables(sys.cfg, files, c), d), m.id) == [])
             && Selects(t, c, m.id, NO_FAULTS, before, found, out)
    ensures found && out == Stored(StoredOn(s.stream, c)[i])
  {
    var ms, t := StoredOn(s.stream, c), ChannelTables(sys.cfg, s.files, c);
    PayloadsToTables(sys, files, es, s, c);
    OfChannelHasChannel(Kept(s.stream.accepted, s.stream.overwritten, Front(s.stream)), c);
    OnlyOneIsHeld(ChannelTables(sys.cfg, files, c), sys.cfg.limit, ms, i, t);
    assert DateOf(ms[i].timestamp) in Listing(t.Keys, NO_FAULTS);
    OnlyHoldsSelects(t, ms[i], NO_FAULTS, before, found, out);
  }

  /** In any run, whatever fails: a message whose write reported success, whose day has been there since, and
      whose id nothing else in the retained days has, is what a lookup reports that reads its table. */
  lemma SuccessToLookup(sys: System, files: Files, es: seq<Event>, s: State, c: int32, k: nat, m: Msg,
                        g: Faults, before: Msg, found: bool, out: Msg)
    requires 0 < sys.capacity && Run(sys, Init(files), es) == Some(s)
    requires OwnFiles(sys.cfg) && HasChannel(sys.cfg, c) && m.channel == c
    requires m.registerMap != [] && IsDayName(DateOf(m.timestamp))
    requires var t0, t := ChannelTables(sys.cfg, files, c), ChannelTables(sys.cfg, s.files, c);
             && PutForGood(t0, sys.cfg.limit, CallsOn(s.calls, c), k, m)
             && OnlyPutOf(t0, t, CallsOn(s.calls, c), k, m.id)
             && DateOf(m.timestamp) in Listing(t.Keys, g) && DateOf(m.timestamp) !in g.selectFails
             && Selects(t, c, m.id, g, before, found, out)
    ensures found && out == Stored(m)
  {
    RunKeepsStore(sys, files, es);
    EachChannelOnItsOwn(sys.cfg, files, s.calls, c);
    PutThenSelect(ChannelTables(sys.cfg, files, c), sys.cfg.limit, CallsOn(s.calls, c), k, m, g, before, found, out);
  }

  lemma {:induction false} OfChannelHasChannel(ms: seq<Msg>, c: int)
    ensures forall i :: 0 <= i < |OfChannel(ms, c)| ==> OfChannel(ms, c)[i].channel == c
  {
    if ms != [] { OfChannelHasChannel(ms[..|ms| - 1], c); }
  }
}
