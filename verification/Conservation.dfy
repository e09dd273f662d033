/** Every accepted message is queued, handed to the reader or overwritten, whatever the interleaving. */
module Conservation {
  import opened Messages
  import opened Parser
  import opened Database
  import opened Pipeline

  predicate Increasing(a: seq<int>) { forall i, j :: 0 <= i < j < |a| ==> a[i] < a[j] }

  /** The queue is the tail of the accepted stream. Before it, each index was handed out or overwritten,
      not both; an index is overwritten by the write exactly one capacity later; indices are handed out in
      increasing order. All that was handed out has been written, but for the message in hand. */
  ghost predicate Conserved(sys: System, st: Stream) {
    && |st.queue| <= |st.accepted| && st.queue == st.accepted[Front(st)..]
    && Increasing(st.handed)
    && (forall k :: 0 <= k < |st.handed| ==> 0 <= st.handed[k] < Front(st))
    && (forall i :: i in st.overwritten ==> 0 <= i < Front(st) && st.overwritten[i] == i + sys.capacity < |st.accepted|)
    && (forall i :: 0 <= i < Front(st) ==> (i in st.handed <==> i !in st.overwritten))
    && match st.inHand
       case None => st.written == st.handed
       case Some(m) =>
         && st.handed != [] && st.written == st.handed[..|st.handed| - 1]
         && m == st.accepted[st.handed[|st.handed| - 1]]
  }

  ghost predicate StreamInv(sys: System, s: State) {
    Conserved(sys, s.stream) && (s.ctl.rd.RWriting? <==> s.stream.inHand.Some?)
  }

  lemma EnqueuedConserves(sys: System, st: Stream, m: Msg)
    requires Fits(sys, st) && Conserved(sys, st)
    ensures Conserved(sys, Enqueued(sys, st, m))
  {
    var st' := Enqueued(sys, st, m);
    assert st'.queue == st'.accepted[Front(st')..];
  }

  lemma TakenConserves(sys: System, st: Stream)
    requires st.queue != [] && st.inHand.None? && Conserved(sys, st)
    ensures Conserved(sys, Taken(st))
  {
    var st' := Taken(st);
    assert st'.queue == st'.accepted[Front(st')..];
    assert st'.written == st'.handed[..|st'.handed| - 1];
    assert forall i :: i in st'.handed <==> i in st.handed || i == Front(st);
  }

  lemma PutAwayConserves(sys: System, st: Stream)
    requires st.inHand.Some? && Conserved(sys, st)
    ensures Conserved(sys, PutAway(st))
  {
  }

  /** Only deliveries, reads and writes concern the stream. */
  lemma OtherStepsKeepStream(sys: System, s: State, e: Event)
    requires Fits(sys, s.stream) && Step(sys, s, e).Some?
    requires !e.Deliver? && !e.ReadOne? && !e.WriteOne?
    ensures Step(sys, s, e).value.stream == s.stream
    ensures Step(sys, s, e).value.ctl.rd.RWriting? <==> s.ctl.rd.RWriting?
  {
  }

  lemma DeliveredConserves(sys: System, s: State, payload: Option<Json>)
    requires Fits(sys, s.stream) && StreamInv(sys, s)
    ensures StreamInv(sys, Delivered(sys, s, payload))
  {
    var a := Accept(payload);
    if a.Some? { EnqueuedConserves(sys, s.stream, a.value); }
  }

  lemma StepConserves(sys: System, s: State, e: Event)
    requires Fits(sys, s.stream) && StreamInv(sys, s) && Step(sys, s, e).Some?
    ensures StreamInv(sys, Step(sys, s, e).value)
  {
    match e
    case Deliver(payload) => DeliveredConserves(sys, s, payload);
    case ReadOne => if s.stream.queue != [] { TakenConserves(sys, s.stream); }
    case WriteOne(connected, f) => PutAwayConserves(sys, s.stream);
    case _ => OtherStepsKeepStream(sys, s, e);
  }

  /** Conservation over whole runs. */
  lemma {:induction false} RunConserves(sys: System, files: Files, es: seq<Event>)
    requires 0 < sys.capacity && Run(sys, Init(files), es).Some?
    ensures StreamInv(sys, Run(sys, Init(files), es).value)
  {
    if es != [] {
      RunConserves(sys, files, es[..|es| - 1]);
      StepConserves(sys, Run(sys, Init(files), es[..|es| - 1]).value, es[|es| - 1]);
    }
  }
}
