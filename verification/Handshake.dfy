/** The reboot handshake: what the flags say while a request is out, and what a reply guarantees. */
module Handshake {
  import opened Messages
  import opened Tables
  import opened Parser
  import opened Database
  import opened Pipeline
  import opened Conservation

  function Min(a: int, b: int): int { if a <= b then a else b }

  /** While a request is out the two flags are opposites, and the reader sleeps through it only until it
      is notified; outside there is no request. The callback sleeps through a reset only until it is notified
      in turn. A reply is due only once the flags were reset. */
  predicate FlagsInv(c: Control) {
    && (if c.cb.CIdle? then !c.needFlush else c.needFlush == !c.flushCompleted)
    && (c.cb.CReplying? ==> c.flushCompleted)
    && (c.rd.RAsleep? && c.needFlush ==> c.cb.CNotifying?)
    && (c.cb.CAsleep? && c.flushCompleted ==> c.rd.RNotifying?)
    && (c.serving ==> c.needFlush && (c.rd.RDraining? || c.rd.RWriting? || c.rd.RFinishing?))
  }

  /** Everything accepted before index `k` was written or overwritten. */
  ghost predicate Settled(st: Stream, k: int) {
    forall i :: 0 <= i < k ==> i in st.written || i in st.overwritten
  }

  ghost predicate MarksInv(sys: System, c: Control, m: Marks, accepted: nat, queued: nat) {
    && m.drainedAt <= accepted && m.completedAt <= accepted && m.completionsAtPost <= m.completions
    && (c.rd.RFinishing? ==> queued == Min(sys.capacity, accepted - m.drainedAt))
    && (c.rd.RFinishing? && c.serving ==> m.drainedAt == accepted)
    && (!c.cb.CIdle? ==>
          && m.postedAt == accepted
          && (c.flushCompleted <==> m.completionsAtPost < m.completions)
          && (c.flushCompleted ==> queued + m.readsSince == Min(sys.capacity, accepted - m.completedAt))
          && (c.flushCompleted && sys.servingOnly ==> m.completedAt == accepted))
  }

  ghost predicate Inv(sys: System, s: State) {
    && StreamInv(sys, s) && FlagsInv(s.ctl)
    && MarksInv(sys, s.ctl, s.marks, |s.stream.accepted|, |s.stream.queue|)
    && Settled(s.stream, s.marks.drainedAt) && Settled(s.stream, s.marks.completedAt)
  }

  lemma StepKeepsFlags(sys: System, s: State, e: Event)
    requires Fits(sys, s.stream) && FlagsInv(s.ctl) && Step(sys, s, e).Some?
    ensures FlagsInv(Step(sys, s, e).value.ctl)
  {
  }

  lemma MarksAfterDelivery(sys: System, s: State, payload: Option<Json>)
    requires Fits(sys, s.stream) && s.ctl.cb.CIdle? && |s.stream.queue| <= |s.stream.accepted|
    requires MarksInv(sys, s.ctl, s.marks, |s.stream.accepted|, |s.stream.queue|) && FlagsInv(s.ctl)
    ensures var s' := Delivered(sys, s, payload);
            MarksInv(sys, s'.ctl, s'.marks, |s'.stream.accepted|, |s'.stream.queue|)
  {
  }

  lemma MarksAfterRead(sys: System, s: State)
    requires Fits(sys, s.stream) && s.ctl.rd.RDraining? && FlagsInv(s.ctl)
    requires MarksInv(sys, s.ctl, s.marks, |s.stream.accepted|, |s.stream.queue|)
    ensures var s' := OneRead(s);
            MarksInv(sys, s'.ctl, s'.marks, |s'.stream.accepted|, |s'.stream.queue|)
  {
  }

  lemma MarksAfterReset(sys: System, s: State)
    requires Fits(sys, s.stream) && s.ctl.rd.RFinishing? && FlagsInv(s.ctl)
    requires MarksInv(sys, s.ctl, s.marks, |s.stream.accepted|, |s.stream.queue|)
    ensures var s' := FlagsReset(sys, s);
            MarksInv(sys, s'.ctl, s'.marks, |s'.stream.accepted|, |s'.stream.queue|)
  {
  }

  lemma MarksAfterMove(sys: System, c: Control, e: Event, m: Marks, accepted: nat, queued: nat)
    requires FlagsInv(c) && MarksInv(sys, c, m, accepted, queued) && Moved(c, e).Some?
    ensures MarksInv(sys, Moved(c, e).value, m, accepted, queued)
  {
  }

  lemma StepKeepsMarks(sys: System, s: State, e: Event)
    requires Fits(sys, s.stream) && FlagsInv(s.ctl) && Step(sys, s, e).Some?
    requires MarksInv(sys, s.ctl, s.marks, |s.stream.accepted|, |s.stream.queue|)
    requires |s.stream.queue| <= |s.stream.accepted|
    ensures var s' := Step(sys, s, e).value;
            MarksInv(sys, s'.ctl, s'.marks, |s'.stream.accepted|, |s'.stream.queue|)
  {
    match e
    case Deliver(payload) => MarksAfterDelivery(sys, s, payload);
    case ReadOne => MarksAfterRead(sys, s);
    case ResetFlags => MarksAfterReset(sys, s);
    case Post =>
    case WriteOne(_, _) =>
    case _ => MarksAfterMove(sys, s.ctl, e, s.marks, |s.stream.accepted|, |s.stream.queue|);
  }

  /** What is settled stays settled, and a failing read settles everything. */
  lemma StepSettles(sys: System, s: State, e: Event, k: int)
    requires Fits(sys, s.stream) && StreamInv(sys, s) && Step(sys, s, e).Some?
    ensures Settled(s.stream, k) ==> Settled(Step(sys, s, e).value.stream, k)
    ensures e.ReadOne? && s.stream.queue == [] ==> Settled(s.stream, |s.stream.accepted|)
  {
    var st, st' := s.stream, Step(sys, s, e).value.stream;
    assert forall i :: i in st.written ==> i in st.handed;
    assert forall i :: i in st.written ==> i in st'.written;
    assert forall i :: i in st.overwritten ==> i in st'.overwritten;
  }

  lemma StepKeepsInv(sys: System, s: State, e: Event)
    requires Fits(sys, s.stream) && Inv(sys, s) && Step(sys, s, e).Some?
    ensures Inv(sys, Step(sys, s, e).value)
  {
    StepConserves(sys, s, e);
    StepKeepsFlags(sys, s, e);
    StepKeepsMarks(sys, s, e);
    StepSettles(sys, s, e, s.marks.drainedAt);
    StepSettles(sys, s, e, s.marks.completedAt);
    StepSettles(sys, s, e, |s.stream.accepted|);
  }

  lemma {:induction false} RunKeepsInv(sys: System, files: Files, es: seq<Event>)
    requires 0 < sys.capacity && Run(sys, Init(files), es).Some?
    ensures Inv(sys, Run(sys, Init(files), es).value)
  {
    if es != [] {
      RunKeepsInv(sys, files, es[..|es| - 1]);
      StepKeepsInv(sys, Run(sys, Init(files), es[..|es| - 1]).value, es[|es| - 1]);
    }
  }

  // ----- what every run guarantees -----

  /** From the post to the reply the flags are opposites; once notified of a request the reader does not
      sleep; the callback sleeps after a reset only while the reader is about to wake it; and a reply follows
      a reset of the flags that came after the post. */
  lemma FlagsDuringRequest(sys: System, files: Files, es: seq<Event>, s: State)
    requires 0 < sys.capacity && Run(sys, Init(files), es) == Some(s)
    ensures !s.ctl.cb.CIdle? ==> s.ctl.needFlush == !s.ctl.flushCompleted
    ensures s.ctl.needFlush && !s.ctl.cb.CNotifying? ==> !s.ctl.rd.RAsleep?
    ensures s.ctl.cb.CAsleep? && s.ctl.flushCompleted ==> s.ctl.rd.RNotifying?
    ensures s.ctl.cb.CReplying? ==> s.marks.completionsAtPost < s.marks.completions
  {
    RunKeepsInv(sys, files, es);
  }

  /** What a reply means, exactly. Nothing was accepted since the request; everything accepted before the
      last completed drain's failing read was written or overwritten; and of the messages accepted between
      that read and the request, as many as fit were still queued, less those read since. */
  lemma ReplyExactly(sys: System, files: Files, es: seq<Event>, s: State)
    requires 0 < sys.capacity && Run(sys, Init(files), es) == Some(s) && s.ctl.cb.CReplying?
    ensures s.marks.completedAt <= s.marks.postedAt == |s.stream.accepted|
    ensures Settled(s.stream, s.marks.completedAt)
    ensures |s.stream.queue| + s.marks.readsSince == Min(sys.capacity, s.marks.postedAt - s.marks.completedAt)
    ensures s.stream.queue == s.stream.accepted[s.marks.postedAt - |s.stream.queue|..]
  {
    RunKeepsInv(sys, files, es);
  }

  /** When a reply keeps its promise. The queue is empty exactly when every message that slipped in between
      the failing read and the request, as far as they fit, has been read since; everything is settled
      exactly when the last of those is not still in the reader's hand. If nothing slipped in, both hold. */
  lemma ReplyKeepsPromiseIff(sys: System, files: Files, es: seq<Event>, s: State)
    requires 0 < sys.capacity && Run(sys, Init(files), es) == Some(s) && s.ctl.cb.CReplying?
    ensures s.stream.queue == [] <==>
              s.marks.readsSince == Min(sys.capacity, s.marks.postedAt - s.marks.completedAt)
    ensures Settled(s.stream, |s.stream.accepted|) <==>
              && s.marks.readsSince == Min(sys.capacity, s.marks.postedAt - s.marks.completedAt)
              && !s.ctl.rd.RWriting?
    ensures s.marks.completedAt == s.marks.postedAt ==>
              s.stream.queue == [] && Settled(s.stream, |s.stream.accepted|)
  {
    ReplyExactly(sys, files, es, s);
    RunKeepsInv(sys, files, es);
    SettledIff(sys, s);
  }

  /** Everything accepted is settled exactly when no message is queued or in the reader's hand. */
  lemma SettledIff(sys: System, s: State)
    requires StreamInv(sys, s)
    ensures Settled(s.stream, |s.stream.accepted|) <==> s.stream.queue == [] && !s.ctl.rd.RWriting?
  {
    if s.stream.queue != [] { QueuedIsUnsettled(sys, s); }
    if s.ctl.rd.RWriting? { InHandIsUnsettled(sys, s); }
  }

  lemma InHandIsUnsettled(sys: System, s: State)
    requires StreamInv(sys, s) && s.ctl.rd.RWriting?
    ensures !Settled(s.stream, |s.stream.accepted|)
  {
    var n := |s.stream.handed| - 1;
    var i := s.stream.handed[n];
    assert i in s.stream.handed && i !in s.stream.overwritten;
    assert forall k :: 0 <= k < |s.stream.written| ==> s.stream.written[k] == s.stream.handed[k] < s.stream.handed[n];
  }

  lemma QueuedIsUnsettled(sys: System, s: State)
    requires StreamInv(sys, s) && s.stream.queue != []
    ensures !Settled(s.stream, |s.stream.accepted|)
  {
    var i := Front(s.stream);
    assert i !in s.stream.handed && i !in s.stream.overwritten;
    assert forall k :: k in s.stream.written ==> k in s.stream.handed;
  }

  /** The same at the window itself: when a reader that has made its failing read is about to reset the
      flags for a request, everything accepted is settled exactly if nothing was accepted in between. */
  lemma WindowSettledIff(sys: System, files: Files, es: seq<Event>, s: State)
    requires 0 < sys.capacity && Run(sys, Init(files), es) == Some(s)
    requires !s.ctl.cb.CIdle? && s.ctl.rd.RFinishing?
    ensures Settled(s.stream, |s.stream.accepted|) <==> s.marks.drainedAt == s.marks.postedAt
    ensures |s.stream.queue| == Min(sys.capacity, s.marks.postedAt - s.marks.drainedAt)
  {
    RunKeepsInv(sys, files, es);
    SettledIff(sys, s);
  }

  /** A drain that began with the request already posted leaves nothing behind when it resets the flags. */
  lemma ServingDrainSettlesAll(sys: System, files: Files, es: seq<Event>, s: State)
    requires 0 < sys.capacity && Run(sys, Init(files), es) == Some(s)
    requires s.ctl.rd.RFinishing? && s.ctl.serving
    ensures s.stream.queue == [] && Settled(s.stream, |s.stream.accepted|)
  {
    RunKeepsInv(sys, files, es);
  }

  /** In the variant where only a drain that saw the request resets the flags, a reply always means that
      everything accepted was written or overwritten. */
  lemma ServingOnlyKeepsPromise(sys: System, files: Files, es: seq<Event>, s: State)
    requires 0 < sys.capacity && Run(sys, Init(files), es) == Some(s) && s.ctl.cb.CReplying?
    requires sys.servingOnly
    ensures s.stream.queue == [] && Settled(s.stream, |s.stream.accepted|)
  {
    RunKeepsInv(sys, files, es);
    ReplyKeepsPromiseIff(sys, files, es, s);
  }

  // ----- what can always happen -----

  /** The callback is never refused its next step: idle, it takes any payload and any request, whatever is
      queued. */
  lemma CallbackIsNotRefused(sys: System, s: State)
    requires Fits(sys, s.stream)
    ensures s.ctl.cb.CIdle? ==> Step(sys, s, Post).Some? && forall p :: Step(sys, s, Deliver(p)).Some?
    ensures s.ctl.cb.CNotifying? ==> Step(sys, s, NotifyOne).Some?
    ensures s.ctl.cb.CTesting? ==> Step(sys, s, TestCompleted).Some?
    ensures s.ctl.cb.CAsleep? ==> Step(sys, s, CallbackWakes).Some?
    ensures s.ctl.cb.CReplying? ==> Step(sys, s, Publish).Some?
  {
  }

  /** Nor is the reader; it may be woken either way, and its write may go in any way. */
  lemma ReaderIsNotRefused(sys: System, s: State)
    requires Fits(sys, s.stream) && StreamInv(sys, s)
    ensures s.ctl.rd.RTop? ==> Step(sys, s, TestNeed).Some?
    ensures s.ctl.rd.RAsleep? ==> forall timedOut :: Step(sys, s, ReaderWakes(timedOut)).Some?
    ensures s.ctl.rd.RWoken? ==> Step(sys, s, TestNeedAgain).Some?
    ensures s.ctl.rd.RDraining? ==> Step(sys, s, ReadOne).Some?
    ensures s.ctl.rd.RWriting? ==> forall connected, f :: Step(sys, s, WriteOne(connected, f)).Some?
    ensures s.ctl.rd.RFinishing? ==> Step(sys, s, ResetFlags).Some?
    ensures s.ctl.rd.RNotifying? ==> Step(sys, s, NotifyAll).Some?
  {
  }

  // ----- what starts a drain -----

  /** How often the reader's 60 seconds were over. */
  function Timeouts(es: seq<Event>): nat {
    if es == [] then 0 else Timeouts(es[..|es| - 1]) + (if es[|es| - 1] == ReaderWakes(true) then 1 else 0)
  }

  /** The step begins a drain although no request is posted. */
  predicate BeginsIdly(c: Control, c': Control) {
    !c.rd.RDraining? && !c.rd.RWriting? && c'.rd.RDraining? && !c.needFlush
  }

  ghost function IdleDrains(sys: System, files: Files, es: seq<Event>): nat
    requires 0 < sys.capacity && Run(sys, Init(files), es).Some?
  {
    if es == [] then 0
    else
      var pre := es[..|es| - 1];
      IdleDrains(sys, files, pre)
      + (if BeginsIdly(Run(sys, Init(files), pre).value.ctl, Run(sys, Init(files), es).value.ctl) then 1 else 0)
  }

  lemma IdleStep(sys: System, s: State, e: Event)
    requires Fits(sys, s.stream) && Step(sys, s, e).Some?
    ensures var c, c' := s.ctl, Step(sys, s, e).value.ctl;
            (if BeginsIdly(c, c') then 1 else 0) + (if c'.rd == RWoken(true) then 1 else 0)
            <= (if c.rd == RWoken(true) then 1 else 0) + (if e == ReaderWakes(true) then 1 else 0)
  {
  }

  /** Without a request only the timeout starts a drain, and each timeout at most one: neither a spurious
      wake-up nor a notification that comes late does. */
  lemma {:induction false} DrainsHaveCause(sys: System, files: Files, es: seq<Event>)
    requires 0 < sys.capacity && Run(sys, Init(files), es).Some?
    ensures IdleDrains(sys, files, es)
            + (if Run(sys, Init(files), es).value.ctl.rd == RWoken(true) then 1 else 0) <= Timeouts(es)
  {
    if es != [] {
      DrainsHaveCause(sys, files, es[..|es| - 1]);
      IdleStep(sys, Run(sys, Init(files), es[..|es| - 1]).value, es[|es| - 1]);
    }
  }

  // ----- a reply that breaks the promise -----

  lemma RunOneMore(sys: System, s: State, es: seq<Event>, e: Event, t: State)
    requires Fits(sys, s.stream) && Run(sys, s, es) == Some(t)
    ensures Run(sys, s, es + [e]) == Step(sys, t, e)
  {
    assert (es + [e])[..|es|] == es;
  }

  /** A drain that the 60-second timeout started has found the queue empty. */
  lemma TimeoutDrain(sys: System, files: Files) returns (es: seq<Event>, s: State)
    requires 0 < sys.capacity
    ensures Run(sys, Init(files), es) == Some(s)
    ensures s.ctl == Control(CIdle, RFinishing, false, false, false)
    ensures s.stream == Init(files).stream && s.payloads == []
  {
    var s0 := Init(files);
    es, s := [], s0;
    RunOneMore(sys, s0, es, TestNeed, s);
    es, s := es + [TestNeed], s.(ctl := s.ctl.(rd := RAsleep));
    RunOneMore(sys, s0, es, ReaderWakes(true), s);
    es, s := es + [ReaderWakes(true)], s.(ctl := s.ctl.(rd := RWoken(true)));
    RunOneMore(sys, s0, es, TestNeedAgain, s);
    es, s := es + [TestNeedAgain], s.(ctl := DrainBegun(s.ctl));
    RunOneMore(sys, s0, es, ReadOne, s);
    es, s := es + [ReadOne], OneRead(s);
  }

  /** Before it resets the flags, a message is accepted and a request posted. */
  lemma MessageSlipsIn(sys: System, files: Files, payload: Option<Json>, m: Msg) returns (es: seq<Event>, s: State)
    requires 0 < sys.capacity && Accept(payload) == Some(m)
    ensures Run(sys, Init(files), es) == Some(s)
    ensures s.ctl == Control(CTesting, RFinishing, true, false, false)
    ensures s.stream == Stream([m], [m], None, [], [], map[]) && s.payloads == [payload]
  {
    var s0 := Init(files);
    es, s := TimeoutDrain(sys, files);
    RunOneMore(sys, s0, es, Deliver(payload), s);
    es, s := es + [Deliver(payload)], Delivered(sys, s, payload);
    RunOneMore(sys, s0, es, Post, s);
    es, s := es + [Post], Posted(s);
    RunOneMore(sys, s0, es, NotifyOne, s);
    es, s := es + [NotifyOne], s.(ctl := s.ctl.(cb := CTesting));
  }

  /** The callback takes that drain's reset for its answer and replies with the message still queued. */
  lemma ReplyCanComeTooEarly(sys: System, files: Files, payload: Option<Json>, m: Msg)
    returns (es: seq<Event>, s: State)
    requires 0 < sys.capacity && !sys.servingOnly && Accept(payload) == Some(m)
    ensures Run(sys, Init(files), es) == Some(s) && s.ctl.cb.CReplying?
    ensures s.stream == Stream([m], [m], None, [], [], map[]) && s.payloads == [payload]
  {
    var s0 := Init(files);
    es, s := MessageSlipsIn(sys, files, payload, m);
    RunOneMore(sys, s0, es, ResetFlags, s);
    es, s := es + [ResetFlags], FlagsReset(sys, s);
    RunOneMore(sys, s0, es, TestCompleted, s);
    es, s := es + [TestCompleted], s.(ctl := s.ctl.(cb := CReplying));
  }

  /** The payload of an empty message will do. */
  lemma EarlyReplyExample(sys: System, files: Files) returns (es: seq<Event>, s: State)
    requires 0 < sys.capacity && !sys.servingOnly
    ensures Run(sys, Init(files), es) == Some(s) && s.ctl.cb.CReplying?
    ensures s.payloads == [Some(Encode(EMPTY_MSG))]
    ensures s.stream.queue == [EMPTY_MSG] && !Settled(s.stream, |s.stream.accepted|)
  {
    EncodeThenParse(EMPTY_MSG);
    es, s := ReplyCanComeTooEarly(sys, files, Some(Encode(EMPTY_MSG)), EMPTY_MSG);
    assert 0 !in s.stream.written && 0 !in s.stream.overwritten;
  }

  // ----- progress -----

  predicate IsReaderEvent(e: Event) {
    e.TestNeed? || e.ReaderWakes? || e.TestNeedAgain? || e.ReadOne? || e.WriteOne? || e.ResetFlags? || e.NotifyAll?
  }

  /** A request is out, the reader was notified, and nothing has completed it yet. */
  predicate Pending(c: Control) { c.needFlush && !c.cb.CIdle? && !c.cb.CNotifying? }

  /** Reader steps left until the flags are reset. */
  function Rank(sys: System, c: Control, queued: nat): nat {
    var again := if sys.servingOnly && !c.serving then 4 else 0;
    match c.rd
    case RTop => 2 * queued + 2
    case RAsleep => 0
    case RWoken(_) => 2 * queued + 2
    case RDraining => 2 * queued + 1 + again
    case RWriting => 2 * queued + 2 + again
    case RFinishing => 2 * queued + again
    case RNotifying => 2 * queued + 3
  }

  ghost function RankOf(sys: System, s: State): nat { Rank(sys, s.ctl, |s.stream.queue|) }

  /** While a request is pending, each reader step gets closer to the reset or is the reset; no other
      thread can interfere. */
  lemma PendingStep(sys: System, s: State, e: Event)
    requires Fits(sys, s.stream) && FlagsInv(s.ctl) && Pending(s.ctl) && Step(sys, s, e).Some?
    ensures var s' := Step(sys, s, e).value;
            if e.ResetFlags? && Completes(sys, s.ctl) then
              !s'.ctl.needFlush && s'.marks.completions == s.marks.completions + 1
            else
              && Pending(s'.ctl) && s'.marks.completions == s.marks.completions
              && (if IsReaderEvent(e) then RankOf(sys, s') < RankOf(sys, s) else RankOf(sys, s') == RankOf(sys, s))
              && |s'.stream.handed| + |s'.stream.queue| == |s.stream.handed| + |s.stream.queue|
  {
  }

  /** The reader is never stuck on a pending request. */
  lemma PendingReaderCanStep(sys: System, s: State)
    requires Fits(sys, s.stream) && Inv(sys, s) && Pending(s.ctl)
    ensures exists e :: IsReaderEvent(e) && Step(sys, s, e).Some?
  {
    var e := match s.ctl.rd
      case RTop => TestNeed
      case RAsleep => ReaderWakes(true)
      case RWoken(_) => TestNeedAgain
      case RDraining => ReadOne
      case RWriting => WriteOne(true, NO_FAULTS)
      case RFinishing => ResetFlags
      case RNotifying => NotifyAll;
    assert IsReaderEvent(e) && Step(sys, s, e).Some?;
  }

  function ReaderEvents(es: seq<Event>): nat {
    if es == [] then 0
    else ReaderEvents(es[..|es| - 1]) + (if IsReaderEvent(es[|es| - 1]) then 1 else 0)
  }

  lemma StepCompletions(sys: System, s: State, e: Event)
    requires Fits(sys, s.stream) && Step(sys, s, e).Some?
    ensures s.marks.completions <= Step(sys, s, e).value.marks.completions
  {
  }

  lemma {:induction false} CompletionsGrow(sys: System, s: State, es: seq<Event>)
    requires Fits(sys, s.stream) && Run(sys, s, es).Some?
    ensures s.marks.completions <= Run(sys, s, es).value.marks.completions
  {
    if es != [] {
      CompletionsGrow(sys, s, es[..|es| - 1]);
      StepCompletions(sys, Run(sys, s, es[..|es| - 1]).value, es[|es| - 1]);
    }
  }

  /** From a pending request, as long as nothing completes it, at most 2 * capacity + 6 reader steps and
      `capacity` successful reads happen, whatever the callback does in between. */
  lemma {:induction false} BoundedProgress(sys: System, s: State, es: seq<Event>, s': State)
    requires Fits(sys, s.stream) && FlagsInv(s.ctl) && Pending(s.ctl)
    requires Run(sys, s, es) == Some(s') && s'.marks.completions == s.marks.completions
    ensures Pending(s'.ctl) && FlagsInv(s'.ctl)
    ensures ReaderEvents(es) + RankOf(sys, s') <= RankOf(sys, s) <= 2 * sys.capacity + 6
    ensures |s'.stream.handed| - |s.stream.handed| == |s.stream.queue| - |s'.stream.queue| <= sys.capacity
  {
    if es != [] {
      var pre, last := es[..|es| - 1], es[|es| - 1];
      var t := Run(sys, s, pre).value;
      CompletionsGrow(sys, s, pre);
      StepCompletions(sys, t, last);
      BoundedProgress(sys, s, pre, t);
      PendingStep(sys, t, last);
      StepKeepsFlags(sys, t, last);
    }
  }

  // ----- up to the reply -----

  predicate NoReply(es: seq<Event>) { forall i :: 0 <= i < |es| ==> es[i] != Publish }

  /** A request is out, the reader was notified, and the reply has not been published. */
  predicate Answering(c: Control) { !c.cb.CIdle? && !c.cb.CNotifying? }

  /** Reader steps left until the callback is awake and finds the flags reset. */
  ghost function RankToReply(sys: System, s: State): nat {
    if s.ctl.needFlush then RankOf(sys, s) + 2 else if s.ctl.cb.CAsleep? then 1 else 0
  }

  /** The callback is awake and its next step, or the one it just took, finds the flags reset. */
  predicate WillReply(c: Control) { c.flushCompleted && (c.cb.CTesting? || c.cb.CReplying?) }

  lemma AnsweringStep(sys: System, s: State, e: Event)
    requires Fits(sys, s.stream) && FlagsInv(s.ctl) && Answering(s.ctl) && Step(sys, s, e).Some? && e != Publish
    ensures var s' := Step(sys, s, e).value;
            && FlagsInv(s'.ctl) && Answering(s'.ctl)
            && (WillReply(s.ctl) ==> WillReply(s'.ctl))
            && (!WillReply(s'.ctl) ==>
                  RankToReply(sys, s') + (if IsReaderEvent(e) then 1 else 0) <= RankToReply(sys, s))
  {
    StepKeepsFlags(sys, s, e);
    if s.ctl.needFlush { PendingStep(sys, s, e); }
  }

  /** From a pending request, in any run until the reply: the callback is woken after a reset, and until it
      is awake and about to reply, at most 2 * capacity + 8 reader steps happen. Then it stays awake. */
  lemma {:induction false} BoundedReply(sys: System, s: State, es: seq<Event>, s': State)
    requires Fits(sys, s.stream) && FlagsInv(s.ctl) && Answering(s.ctl) && NoReply(es)
    requires Run(sys, s, es) == Some(s')
    ensures FlagsInv(s'.ctl) && Answering(s'.ctl)
    ensures WillReply(s.ctl) ==> WillReply(s'.ctl)
    ensures WillReply(s'.ctl) || ReaderEvents(es) + RankToReply(sys, s') <= RankToReply(sys, s) <= 2 * sys.capacity + 8
  {
    if es != [] {
      var t := Run(sys, s, es[..|es| - 1]).value;
      BoundedReply(sys, s, es[..|es| - 1], t);
      AnsweringStep(sys, t, es[|es| - 1]);
    }
  }

  /** As long as the callback will not reply of itself, the reader has a step to take. */
  lemma AnsweringReaderCanStep(sys: System, s: State)
    requires Fits(sys, s.stream) && Inv(sys, s) && Answering(s.ctl) && !WillReply(s.ctl)
    ensures exists e :: IsReaderEvent(e) && Step(sys, s, e).Some?
  {
    if s.ctl.needFlush {
      PendingReaderCanStep(sys, s);
    } else {
      assert IsReaderEvent(NotifyAll) && Step(sys, s, NotifyAll).Some?;
    }
  }

  /** Once it will reply, its next step decides. */
  lemma NextTestReplies(sys: System, s: State)
    requires Fits(sys, s.stream) && WillReply(s.ctl) && s.ctl.cb.CTesting?
    ensures Step(sys, s, TestCompleted).Some? && Step(sys, s, TestCompleted).value.ctl.cb == CReplying
    ensures Step(sys, s, NotifyOne).None? && Step(sys, s, CallbackWakes).None? && Step(sys, s, Post).None?
  {
  }
}
