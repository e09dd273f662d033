/** The service as two threads: the MQTT callback, which enqueues data and serves reboot requests, and
    the reader, which drains the queue into the databases. One step is one critical section, or one call
    between two of them; any interleaving of the two threads' steps is a run. */
module Pipeline {
  import opened Messages
  import opened Queue
  import opened Tables
  import opened Parser
  import opened Database
  import opened Channels

  /** Where the callback is: between messages; about to notify the reader; about to test
      g_flush_completed; asleep on the condition variable; about to publish the reply. */
  datatype CallbackPc = CIdle | CNotifying | CTesting | CAsleep | CReplying

  /** Where the reader is: about to test g_need_flush; asleep; woken and about to test again; about to
      read the queue; about to write the message in hand; past its last read; about to notify the callback. */
  datatype ReaderPc = RTop | RAsleep | RWoken(timedOut: bool) | RDraining | RWriting | RFinishing | RNotifying

  /** The shared flags and the program counters. `serving` records what the drain under way saw in
      g_need_flush when it began; the code as it is does not look at it. */
  datatype Control = Control(cb: CallbackPc, rd: ReaderPc, needFlush: bool, flushCompleted: bool, serving: bool)

  /** The queue and the message the reader has in hand, with the history of the accepted messages: which
      (by index) were handed to the reader, written, or overwritten, and by what. */
  datatype Stream = Stream(
    accepted: seq<Msg>,
    queue: seq<Msg>,
    inHand: Option<Msg>,
    handed: seq<int>,
    written: seq<int>,
    overwritten: map<int, int>)

  /** History of the handshake: how many messages had been accepted at the last failing read, at the
      failing read of the last drain that reset the flags, and at the last request; the successful reads
      since those flags were reset; the number of resets so far, and at the last request. */
  datatype Marks = Marks(
    drainedAt: nat, completedAt: nat, postedAt: nat, readsSince: nat, completions: nat, completionsAtPost: nat)

  datatype State = State(
    ctl: Control,
    stream: Stream,
    marks: Marks,
    payloads: seq<Option<Json>>,  // history: everything delivered on the data topic
    files: Files,
    calls: seq<Call>)             // history: the calls on the databases

  /** `servingOnly` is a variant of the code, in which only a drain that saw a request when it began
      resets the flags. The code itself has `servingOnly` false. */
  datatype System = System(servingOnly: bool, capacity: nat, cfg: Config)

  datatype Event =
    | Deliver(payload: Option<Json>)
    | Post
    | NotifyOne
    | TestCompleted
    | CallbackWakes
    | Publish
    | TestNeed
    | ReaderWakes(timedOut: bool)
    | TestNeedAgain
    | ReadOne
    | WriteOne(connected: bool, faults: Faults)
    | ResetFlags
    | NotifyAll

  ghost function Init(files: Files): State {
    State(Control(CIdle, RTop, false, false, false), Stream([], [], None, [], [], map[]),
          Marks(0, 0, 0, 0, 0, 0), [], files, [])
  }

  // ----- the stream -----

  ghost predicate Fits(sys: System, st: Stream) { 0 < sys.capacity && |st.queue| <= sys.capacity }

  /** The index of the oldest queued message. */
  function Front(st: Stream): int { |st.accepted| - |st.queue| }

  ghost function Enqueued(sys: System, st: Stream, m: Msg): Stream
    requires Fits(sys, st)
  {
    st.(queue := Push(st.queue, m, sys.capacity),
        accepted := st.accepted + [m],
        overwritten := if |st.queue| == sys.capacity then st.overwritten[Front(st) := |st.accepted|]
                       else st.overwritten)
  }

  ghost function Taken(st: Stream): Stream
    requires st.queue != []
  {
    st.(inHand := Some(st.queue[0]), queue := st.queue[1..], handed := st.handed + [Front(st)])
  }

  ghost function PutAway(st: Stream): Stream { st.(inHand := None, written := st.handed) }

  /** What the data branch makes of a payload; `None` inside is text that does not parse as JSON. */
  ghost function Accept(payload: Option<Json>): Option<Msg> {
    match payload
    case None => None
    case Some(j) => Parse(j)
  }

  // ----- steps -----

  ghost function Delivered(sys: System, s: State, payload: Option<Json>): State
    requires Fits(sys, s.stream)
  {
    var a := Accept(payload);
    s.(payloads := s.payloads + [payload],
       stream := if a.Some? then Enqueued(sys, s.stream, a.value) else s.stream)
  }

  function RequestPosted(c: Control): Control {
    c.(cb := CNotifying, needFlush := true, flushCompleted := false)
  }

  ghost function Posted(s: State): State {
    s.(ctl := RequestPosted(s.ctl),
       marks := s.marks.(postedAt := |s.stream.accepted|, completionsAtPost := s.marks.completions))
  }

  function DrainBegun(c: Control): Control { c.(rd := RDraining, serving := c.needFlush) }

  ghost function OneRead(s: State): State {
    if s.stream.queue == [] then
      s.(ctl := s.ctl.(rd := RFinishing), marks := s.marks.(drainedAt := |s.stream.accepted|))
    else
      s.(ctl := s.ctl.(rd := RWriting), marks := s.marks.(readsSince := s.marks.readsSince + 1),
         stream := Taken(s.stream))
  }

  ghost function OneWritten(sys: System, s: State, connected: bool, f: Faults): State
    requires s.stream.inHand.Some?
  {
    var call := Put(s.stream.inHand.value, connected, f);
    s.(ctl := s.ctl.(rd := RDraining), stream := PutAway(s.stream),
       files := Called(sys.cfg, s.files, call), calls := s.calls + [call])
  }

  predicate Completes(sys: System, c: Control) { !sys.servingOnly || c.serving }

  function RequestCompleted(c: Control): Control {
    c.(rd := RNotifying, needFlush := false, flushCompleted := true, serving := false)
  }

  ghost function FlagsReset(sys: System, s: State): State {
    if Completes(sys, s.ctl) then
      s.(ctl := RequestCompleted(s.ctl),
         marks := s.marks.(completedAt := s.marks.drainedAt, readsSince := 0, completions := s.marks.completions + 1))
    else s.(ctl := s.ctl.(rd := RNotifying))
  }

  /** The steps that only move a thread along; `None` for all others, and where they cannot happen. */
  function Moved(c: Control, e: Event): Option<Control> {
    match e
    case NotifyOne =>
      if c.cb.CNotifying? then Some(c.(cb := CTesting, rd := if c.rd.RAsleep? then RWoken(false) else c.rd)) else None
    case TestCompleted =>
      if c.cb.CTesting? then Some(c.(cb := if c.flushCompleted then CReplying else CAsleep)) else None
    case CallbackWakes => if c.cb.CAsleep? then Some(c.(cb := CTesting)) else None
    case Publish => if c.cb.CReplying? then Some(c.(cb := CIdle)) else None
    case TestNeed =>
      if c.rd.RTop? then Some(if c.needFlush then DrainBegun(c) else c.(rd := RAsleep)) else None
    case ReaderWakes(t) => if c.rd.RAsleep? then Some(c.(rd := RWoken(t))) else None
    case TestNeedAgain =>
      if c.rd.RWoken? then Some(if c.needFlush || c.rd.timedOut then DrainBegun(c) else c.(rd := RAsleep)) else None
    case NotifyAll =>
      if c.rd.RNotifying? then Some(c.(rd := RTop, cb := if c.cb.CAsleep? then CTesting else c.cb)) else None
    case _ => None
  }

  /** The state after an event, `None` when the event cannot happen here. */
  ghost function Step(sys: System, s: State, e: Event): (r: Option<State>)
    requires Fits(sys, s.stream)
    ensures r.Some? ==> Fits(sys, r.value.stream)
  {
    match e
    case Deliver(payload) => if s.ctl.cb.CIdle? then Some(Delivered(sys, s, payload)) else None
    case Post => if s.ctl.cb.CIdle? then Some(Posted(s)) else None
    case ReadOne => if s.ctl.rd.RDraining? then Some(OneRead(s)) else None
    case WriteOne(connected, f) =>
      if s.ctl.rd.RWriting? && s.stream.inHand.Some? then Some(OneWritten(sys, s, connected, f)) else None
    case ResetFlags => if s.ctl.rd.RFinishing? then Some(FlagsReset(sys, s)) else None
    case _ =>
      var c := Moved(s.ctl, e);
      if c.Some? then Some(s.(ctl := c.value)) else None
  }

  /** A run is a sequence of events that can all happen. */
  ghost function Run(sys: System, s: State, es: seq<Event>): (r: Option<State>)
    requires Fits(sys, s.stream)
    ensures r.Some? ==> Fits(sys, r.value.stream)
  {
    if es == [] then Some(s)
    else
      var r := Run(sys, s, es[..|es| - 1]);
      if r.Some? then Step(sys, r.value, es[|es| - 1]) else None
  }
}
