/** From the messages that were sent: what the callback makes of their encodings, and where they end up. */
module Sending {
  import opened Messages
  import opened Tables
  import opened Retention
  import opened Lookup
  import opened Parser
  import opened Database
  import opened Channels
  import opened Pipeline
  import opened EndToEnd

  /** A message whose registers the encoding can all carry. */
  predicate AllEncodable(m: Msg) { forall i :: 0 <= i < |m.registerMap| ==> Encodable(m.registerMap[i]) }

  /** The payloads are the encodings of these messages; where there is none, text that does not parse or a
      tree that is ill-formed. */
  ghost predicate PayloadsOf(payloads: seq<Option<Json>>, sent: seq<Option<Msg>>) {
    && |payloads| == |sent|
    && forall k :: 0 <= k < |sent| ==>
         match sent[k]
         case Some(m) => payloads[k] == Some(Encode(m))
         case None => payloads[k].None? || !WellFormed(payloads[k].value)
  }

  predicate CanBeCarried(m: Option<Msg>) { m.Some? && AllEncodable(m.value) }

  /** Those of the messages sent that can be carried, in order. */
  function Carried(sent: seq<Option<Msg>>): seq<Msg> {
    if sent == [] then []
    else
      var last := sent[|sent| - 1];
      Carried(sent[..|sent| - 1]) + (if CanBeCarried(last) then [last.value] else [])
  }

  lemma AcceptedIffCarried(payload: Option<Json>, m: Option<Msg>)
    requires match m
             case Some(x) => payload == Some(Encode(x))
             case None => payload.None? || !WellFormed(payload.value)
    ensures Accept(payload) == if CanBeCarried(m) then m else None
  {
    if m.Some? { EncodeThenParse(m.value); }
  }

  /** Exactly the messages that can be carried are accepted, as they were sent; nothing else is. */
  lemma {:induction false} CarriedAreAccepted(payloads: seq<Option<Json>>, sent: seq<Option<Msg>>)
    requires PayloadsOf(payloads, sent)
    ensures AcceptedOf(payloads) == Carried(sent)
  {
    if sent != [] {
      var n := |sent| - 1;
      CarriedAreAccepted(payloads[..n], sent[..n]);
      AcceptedIffCarried(payloads[n], sent[n]);
    }
  }

  lemma SentAreAccepted(sys: System, files: Files, es: seq<Event>, s: State, sent: seq<Option<Msg>>)
    requires 0 < sys.capacity && Run(sys, Init(files), es) == Some(s) && PayloadsOf(s.payloads, sent)
    ensures s.stream.accepted == Carried(sent)
  {
    RunKeepsStore(sys, files, es);
    CarriedAreAccepted(s.payloads, sent);
  }

  /** From the messages sent to the tables: of the `ms` that can be carried, those that are for this channel
      and were neither overwritten nor are still queued. */
  lemma SentToTables(sys: System, files: Files, es: seq<Event>, s: State, sent: seq<Option<Msg>>,
                     ms: seq<Msg>, n: int, c: int, t0: Tables, t: Tables)
    requires 0 < sys.capacity && Run(sys, Init(files), es) == Some(s) && AllClean(s.calls) && !s.ctl.rd.RWriting?
    requires OwnFiles(sys.cfg) && HasChannel(sys.cfg, c) && PayloadsOf(s.payloads, sent)
    requires ms == Carried(sent) && n == |ms| - |s.stream.queue|
    requires t0 == ChannelTables(sys.cfg, files, c) && t == ChannelTables(sys.cfg, s.files, c)
    ensures 0 <= n
    ensures IsTopOfHistory(t0, sys.cfg.limit, OfChannel(Kept(ms, s.stream.overwritten, n), c), t)
  {
    SentAreAccepted(sys, files, es, s, sent);
    PayloadsToTables(sys, files, es, s, c);
  }

  /** Message `p` is the only one for channel `c` and day `d` with its id. */
  ghost predicate OnlySent(ms: seq<Msg>, p: nat, c: int, d: string)
    requires p < |ms|
  {
    forall q :: 0 <= q < |ms| && q != p && ms[q].channel == c && DateOf(ms[q].timestamp) == d ==> ms[q].id != ms[p].id
  }

  lemma OtherAppended(ms: seq<Msg>, m: Msg, c: int, d: string, id: int32)
    requires m.channel == c && DateOf(m.timestamp) == d ==> m.id != id
    ensures RowsWithId(Flatten(OfChannel(ms + [m], c), d), id) == RowsWithId(Flatten(OfChannel(ms, c), d), id)
  {
    OfChannelOneMore(ms, m, c);
    if m.channel == c {
      RowsOfAnother(OfChannel(ms, c), m, d, id);
    } else {
      assert OfChannel(ms, c) + [] == OfChannel(ms, c);
    }
  }

  lemma OwnAppended(ms: seq<Msg>, m: Msg, d: string)
    requires RowsWithId(Flatten(OfChannel(ms, m.channel), d), m.id) == []
    ensures RowsWithId(Flatten(OfChannel(ms + [m], m.channel), d), m.id) == RowsFor(m, d)
  {
    OfChannelOneMore(ms, m, m.channel);
    FlattenAppend(OfChannel(ms, m.channel), m, d);
    AllHaveId(RowsFor(m, d), m.id);
    RowsWithIdConcat(Flatten(OfChannel(ms, m.channel), d), RowsFor(m, d), m.id);
  }

  /** Its rows are the only ones of its id that the kept messages of the channel bring to the day. */
  ghost predicate BringsItsRows(ms: seq<Msg>, overwritten: map<int, int>, n: nat, p: nat, d: string)
    requires n <= |ms| && p < |ms|
  {
    RowsWithId(Flatten(OfChannel(Kept(ms, overwritten, n), ms[p].channel), d), ms[p].id)
    == if p < n then RowsFor(ms[p], d) else []
  }

  lemma BringsItself(ms: seq<Msg>, overwritten: map<int, int>, p: nat, d: string)
    requires p < |ms| && p !in overwritten && BringsItsRows(ms, overwritten, p, p, d)
    ensures BringsItsRows(ms, overwritten, p + 1, p, d)
  {
    OwnAppended(Kept(ms, overwritten, p), ms[p], d);
  }

  lemma AnotherBringsNone(ms: seq<Msg>, overwritten: map<int, int>, n: nat, p: nat, d: string)
    requires n < |ms| && p < |ms| && n != p && OnlySent(ms, p, ms[p].channel, d)
    requires BringsItsRows(ms, overwritten, n, p, d)
    ensures BringsItsRows(ms, overwritten, n + 1, p, d)
  {
    OtherAppended(Kept(ms, overwritten, n), ms[n], ms[p].channel, d, ms[p].id);
  }

  lemma OneMoreBrings(ms: seq<Msg>, overwritten: map<int, int>, n: nat, p: nat, d: string)
    requires n < |ms| && p < |ms| && p !in overwritten && OnlySent(ms, p, ms[p].channel, d)
    requires BringsItsRows(ms, overwritten, n, p, d)
    ensures BringsItsRows(ms, overwritten, n + 1, p, d)
  {
    if n == p { BringsItself(ms, overwritten, p, d); } else { AnotherBringsNone(ms, overwritten, n, p, d); }
  }

  lemma NoneBringsNone(ms: seq<Msg>, overwritten: map<int, int>, p: nat, d: string)
    requires p < |ms|
    ensures BringsItsRows(ms, overwritten, 0, p, d)
  {
  }

  lemma {:induction false} KeptRowsOfTheOnlyOne(ms: seq<Msg>, overwritten: map<int, int>, n: nat, p: nat, d: string)
    requires n <= |ms| && p < |ms| && p !in overwritten && OnlySent(ms, p, ms[p].channel, d)
    ensures BringsItsRows(ms, overwritten, n, p, d)
    decreases n
  {
    if n == 0 {
      NoneBringsNone(ms, overwritten, p, d);
    } else {
      var k := n - 1;
      KeptRowsOfTheOnlyOne(ms, overwritten, k, p, d);
      OneMoreBrings(ms, overwritten, k, p, d);
    }
  }

  /** Nothing else in the retained days has the id of message `p`. */
  ghost predicate NothingElse(ms: seq<Msg>, p: nat, t0: Tables, t: Tables)
    requires p < |ms|
  {
    forall d :: d in t && IsDayName(d) ==>
      OnlySent(ms, p, ms[p].channel, d) && RowsWithId(RowsIn(t0, d), ms[p].id) == []
  }

  /** A lookup in `t` for message `p`, which has registers, whose day is retained, and whose id nothing else
      in the retained days has. */
  ghost predicate Asks(ms: seq<Msg>, p: nat, m: Msg, t0: Tables, t: Tables, before: Msg, found: bool, out: Msg)
    requires p < |ms|
  {
    && ms[p] == m && m.registerMap != [] && IsDayName(DateOf(m.timestamp)) && DateOf(m.timestamp) in t
    && NothingElse(ms, p, t0, t)
    && Selects(t, m.channel, m.id, NO_FAULTS, before, found, out)
  }

  /** From a message sent to its lookup: one that can be carried and was neither overwritten nor is still
      queued is what such a lookup reports, cut at NULs. */
  lemma SentToLookup(sys: System, files: Files, es: seq<Event>, s: State, sent: seq<Option<Msg>>, ms: seq<Msg>,
                     n: int, p: nat, m: Msg, t0: Tables, t: Tables, before: Msg, found: bool, out: Msg)
    requires 0 < sys.capacity && Run(sys, Init(files), es) == Some(s) && AllClean(s.calls) && !s.ctl.rd.RWriting?
    requires OwnFiles(sys.cfg) && HasChannel(sys.cfg, m.channel) && PayloadsOf(s.payloads, sent)
    requires ms == Carried(sent) && n == |ms| - |s.stream.queue|
    requires t0 == ChannelTables(sys.cfg, files, m.channel) && t == ChannelTables(sys.cfg, s.files, m.channel)
    requires p < n && p !in s.stream.overwritten && Asks(ms, p, m, t0, t, before, found, out)
    ensures found && out == Stored(m)
  {
    SentToTables(sys, files, es, s, sent, ms, n, m.channel, t0, t);
    SentIsFound(ms, s.stream.overwritten, n, p, m, sys.cfg.limit, t0, t, before, found, out);
  }

  lemma SentIsFound(ms: seq<Msg>, overwritten: map<int, int>, n: nat, p: nat, m: Msg, limit: int,
                    t0: Tables, t: Tables, before: Msg, found: bool, out: Msg)
    requires p < n <= |ms| && p !in overwritten && Asks(ms, p, m, t0, t, before, found, out)
    requires IsTopOfHistory(t0, limit, OfChannel(Kept(ms, overwritten, n), m.channel), t)
    ensures found && out == Stored(m)
  {
    SentIsHeld(ms, overwritten, n, p, limit, t0, t);
    assert DateOf(m.timestamp) in Listing(t.Keys, NO_FAULTS);
    OnlyHoldsSelects(t, m, NO_FAULTS, before, found, out);
  }

  lemma SentIsHeld(ms: seq<Msg>, overwritten: map<int, int>, n: nat, p: nat, limit: int, t0: Tables, t: Tables)
    requires p < n <= |ms| && p !in overwritten
    requires IsTopOfHistory(t0, limit, OfChannel(Kept(ms, overwritten, n), ms[p].channel), t)
    requires DateOf(ms[p].timestamp) in t && IsDayName(DateOf(ms[p].timestamp))
    requires NothingElse(ms, p, t0, t)
    ensures OnlyHolds(t, ms[p])
  {
    var kept := OfChannel(Kept(ms, overwritten, n), ms[p].channel);
    forall d | d in t && IsDayName(d) ensures RowsWithId(t[d], ms[p].id) == RowsFor(ms[p], d) {
      KeptRowsOfTheOnlyOne(ms, overwritten, n, p, d);
      RowsWithIdConcat(RowsIn(t0, d), Flatten(kept, d), ms[p].id);
    }
  }
}
