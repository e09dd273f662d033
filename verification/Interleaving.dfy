/** One writer and any number of `dropTable` callers on one channel's database, statement by statement:
    nothing keeps a drop from running between two statements of a write. */
module Interleaving {
  import opened Messages
  import opened Sequences
  import opened Order
  import opened Tables
  import opened Retention

  /** The SQL statements that change a database. */
  datatype Statement = Create(name: string) | Drop(name: string) | Insert(name: string, row: Row)

  function Exec(t: Tables, st: Statement): Tables {
    match st
    case Create(name) => Created(t, name)
    case Drop(name) => t - {name}
    case Insert(name, row) => if name in t then t[name := t[name] + [row]] else t
  }

  /** Where a `writeMessage` is: about to create its table; about to list the day tables; dropping the ones
      it found to be too many; inserting from register `next` on. */
  datatype Writer =
    | WIdle
    | WCreating(msg: Msg)
    | WListing(msg: Msg)
    | WDropping(msg: Msg, victims: seq<string>)
    | WInserting(msg: Msg, next: nat)

  datatype State = State(tables: Tables, writer: Writer)

  datatype Event = Begin(msg: Msg) | Advance | DropTable(name: string)

  function Executed(s: State, st: Statement, w: Writer): State {
    State(Exec(s.tables, st), w)
  }

  function Begun(s: State, m: Msg): State {
    var date := DateOf(m.timestamp);
    s.(writer := if date == "" then WIdle else if date in s.tables then WInserting(m, 0) else WCreating(m))
  }

  function Advanced(s: State, limit: int): State
    requires !s.writer.WIdle?
  {
    match s.writer
    case WCreating(m) => Executed(s, Create(DateOf(m.timestamp)), WListing(m))
    case WListing(m) =>
      var listed := Listing(s.tables.Keys, NO_FAULTS);
      s.(writer := if 0 <= limit < |listed| then WDropping(m, listed[..|listed| - limit]) else WInserting(m, 0))
    case WDropping(m, victims) =>
      if victims == [] then s.(writer := WInserting(m, 0))
      else Executed(s, Drop(victims[0]), WDropping(m, victims[1..]))
    case WInserting(m, next) =>
      if next < |m.registerMap| then
        Executed(s, Insert(DateOf(m.timestamp), RowOf(m, m.registerMap[next])), WInserting(m, next + 1))
      else s.(writer := WIdle)
  }

  /** The state after an event, `None` when it cannot happen here. */
  function Step(s: State, limit: int, e: Event): Option<State> {
    match e
    case Begin(m) => if s.writer.WIdle? then Some(Begun(s, m)) else None
    case Advance => if s.writer.WIdle? then None else Some(Advanced(s, limit))
    case DropTable(name) => Some(Executed(s, Drop(name), s.writer))
  }

  function Run(t0: Tables, limit: int, es: seq<Event>): Option<State> {
    if es == [] then Some(State(t0, WIdle))
    else
      var r := Run(t0, limit, es[..|es| - 1]);
      if r.Some? then Step(r.value, limit, es[|es| - 1]) else None
  }

  /** Nothing is refused: any message when the writer is idle, its next statement when not, any drop ever. */
  lemma NothingIsRefused(s: State, limit: int)
    ensures s.writer.WIdle? ==> forall m :: Step(s, limit, Begin(m)).Some?
    ensures !s.writer.WIdle? ==> Step(s, limit, Advance).Some?
    ensures forall name :: Step(s, limit, DropTable(name)) == Some(s.(tables := s.tables - {name}))
  {
  }

  // ----- a write that nobody interrupts -----

  /** The rest of a write, without other callers. */
  function Finished(s: State, limit: int): State
    decreases match s.writer case WIdle => 0 case WInserting(_, _) => 1 case WDropping(_, _) => 2
                             case WListing(_) => 3 case WCreating(_) => 4,
              match s.writer case WInserting(m, next) => |m.registerMap| - next
                             case WDropping(_, victims) => |victims| case _ => 0
  {
    if s.writer.WIdle? then s else Finished(Advanced(s, limit), limit)
  }

  lemma {:induction false} FinishInserting(s: State, limit: int, t: Tables)
    requires s.writer.WInserting? && s.writer.next <= |s.writer.msg.registerMap|
    requires s.tables == Inserted(t, DateOf(s.writer.msg.timestamp), s.writer.msg, {}, s.writer.next)
    ensures Finished(s, limit).tables
         == Inserted(t, DateOf(s.writer.msg.timestamp), s.writer.msg, {}, |s.writer.msg.registerMap|)
    decreases |s.writer.msg.registerMap| - s.writer.next
  {
    var m, next := s.writer.msg, s.writer.next;
    if next < |m.registerMap| {
      InsertedOneMore(t, DateOf(m.timestamp), m, {}, next);
      FinishInserting(Advanced(s, limit), limit, t);
    } else {
      assert Finished(s, limit) == Finished(s.(writer := WIdle), limit);
    }
  }

  /** Dropping from the front of a list leaves what dropping all of it leaves. */
  lemma {:induction false} FinishDropping(s: State, limit: int)
    requires s.writer.WDropping?
    ensures Finished(s, limit).tables
         == Inserted(DropEach(s.tables, s.writer.victims, {}), DateOf(s.writer.msg.timestamp), s.writer.msg, {},
                     |s.writer.msg.registerMap|)
    decreases |s.writer.victims|
  {
    var m, victims := s.writer.msg, s.writer.victims;
    if victims == [] {
      InsertedNone(s.tables, DateOf(m.timestamp), m, {});
      FinishInserting(s.(writer := WInserting(m, 0)), limit, s.tables);
    } else {
      FinishDropping(Advanced(s, limit), limit);
      DropFirst(s.tables, victims);
    }
  }

  lemma DropFirst(t: Tables, victims: seq<string>)
    requires victims != []
    ensures DropEach(t - {victims[0]}, victims[1..], {}) == DropEach(t, victims, {})
  {
    DropEachLeaves(t - {victims[0]}, victims[1..], {});
    DropEachLeaves(t, victims, {});
    assert victims == [victims[0]] + victims[1..];
  }

  /** Alone, a write does what `Written` says of it. */
  lemma AloneIsWritten(s: State, limit: int, m: Msg)
    ensures Finished(Begun(s, m), limit).tables == Written(s.tables, limit, m, NO_FAULTS)
    ensures Finished(Begun(s, m), limit).writer == WIdle
  {
    FinishedIsIdle(Begun(s, m), limit);
    var date := DateOf(m.timestamp);
    if date != "" && date in s.tables {
      InsertedNone(s.tables, date, m, {});
      FinishInserting(Begun(s, m), limit, s.tables);
    } else if date != "" {
      var created := Advanced(Begun(s, m), limit);
      FinishListing(created, limit);
      assert Finished(Begun(s, m), limit) == Finished(created, limit);
    }
  }

  lemma FinishListingMany(s: State, limit: int, victims: seq<string>)
    requires s.writer.WListing? && Advanced(s, limit) == s.(writer := WDropping(s.writer.msg, victims))
    requires Cleaned(s.tables, limit, NO_FAULTS) == DropEach(s.tables, victims, {})
    ensures Finished(s, limit).tables
         == Inserted(Cleaned(s.tables, limit, NO_FAULTS), DateOf(s.writer.msg.timestamp), s.writer.msg, {},
                     |s.writer.msg.registerMap|)
  {
    FinishDropping(s.(writer := WDropping(s.writer.msg, victims)), limit);
  }

  lemma FinishListing(s: State, limit: int)
    requires s.writer.WListing?
    ensures Finished(s, limit).tables
         == Inserted(Cleaned(s.tables, limit, NO_FAULTS), DateOf(s.writer.msg.timestamp), s.writer.msg, {},
                     |s.writer.msg.registerMap|)
  {
    var m, listed := s.writer.msg, Listing(s.tables.Keys, NO_FAULTS);
    if 0 <= limit < |listed| {
      CleanedIsDropEach(s.tables, limit, NO_FAULTS);
      FinishListingMany(s, limit, listed[..|listed| - limit]);
    } else {
      NothingToDrop(s.tables, limit, NO_FAULTS);
      InsertedNone(s.tables, DateOf(m.timestamp), m, {});
      FinishInserting(s.(writer := WInserting(m, 0)), limit, s.tables);
    }
  }

  lemma {:induction false} FinishedIsIdle(s: State, limit: int)
    ensures Finished(s, limit).writer == WIdle
    decreases match s.writer case WIdle => 0 case WInserting(_, _) => 1 case WDropping(_, _) => 2
                             case WListing(_) => 3 case WCreating(_) => 4,
              match s.writer case WInserting(m, next) => |m.registerMap| - next
                             case WDropping(_, victims) => |victims| case _ => 0
  {
    if !s.writer.WIdle? { FinishedIsIdle(Advanced(s, limit), limit); }
  }

  // ----- the number of tables -----

  /** The day tables that are not about to be dropped. */
  function Staying(s: State): set<string> {
    DayNames(s.tables.Keys) - (if s.writer.WDropping? then Elements(s.writer.victims) else {})
  }

  /** Only between creating its table and having dropped the surplus has a writer one table too many. */
  predicate Bounded(s: State, limit: nat) {
    && |DayNames(s.tables.Keys)| <= (if s.writer.WListing? || s.writer.WDropping? then limit + 1 else limit)
    && (!s.writer.WListing? ==> |Staying(s)| <= limit)
  }

  lemma ListedHeadIsSurplus(names: set<string>, limit: nat)
    requires limit < |Listing(names, NO_FAULTS)|
    ensures var listed := Listing(names, NO_FAULTS);
            |DayNames(names) - Elements(listed[..|listed| - limit])| == limit
  {
    var listed := Listing(names, NO_FAULTS);
    var head := listed[..|listed| - limit];
    DistinctSize(head);
    assert forall x :: x in head ==> x in listed;
    assert Elements(head) == set x | x in head;
    assert Elements(head) <= DayNames(names);
  }

  lemma CreateKeepsBound(s: State, limit: nat)
    requires Bounded(s, limit) && s.writer.WCreating?
    ensures Bounded(Advanced(s, limit), limit)
  {
    var date := DateOf(s.writer.msg.timestamp);
    SubsetSize(DayNames(Advanced(s, limit).tables.Keys), DayNames(s.tables.Keys) + {date});
  }

  lemma ListKeepsBound(s: State, limit: nat)
    requires Bounded(s, limit) && s.writer.WListing?
    ensures Bounded(Advanced(s, limit), limit)
  {
    var listed := Listing(s.tables.Keys, NO_FAULTS);
    ListingSize(s.tables.Keys);
    if limit < |listed| {
      ListedHeadIsSurplus(s.tables.Keys, limit);
      SurplusIsBounded(s, limit, listed[..|listed| - limit]);
    } else {
      assert Staying(Advanced(s, limit)) == DayNames(s.tables.Keys);
    }
  }

  lemma SurplusIsBounded(s: State, limit: nat, victims: seq<string>)
    requires Bounded(s, limit) && s.writer.WListing?
    requires |DayNames(s.tables.Keys) - Elements(victims)| == limit
    ensures Bounded(s.(writer := WDropping(s.writer.msg, victims)), limit)
  {
  }

  lemma ListingSize(names: set<string>)
    ensures |Listing(names, NO_FAULTS)| == |DayNames(names)|
  {
  }

  lemma DropVictimKeepsBound(s: State, limit: nat)
    requires Bounded(s, limit) && s.writer.WDropping? && s.writer.victims != []
    ensures Bounded(Advanced(s, limit), limit)
  {
    var s', victims := Advanced(s, limit), s.writer.victims;
    SubsetSize(DayNames(s'.tables.Keys), DayNames(s.tables.Keys));
    assert victims == [victims[0]] + victims[1..];
    SubsetSize(Staying(s'), Staying(s));
  }

  lemma AdvanceKeepsBound(s: State, limit: nat)
    requires Bounded(s, limit) && !s.writer.WIdle?
    ensures Bounded(Advanced(s, limit), limit)
  {
    match s.writer
    case WCreating(_) => CreateKeepsBound(s, limit);
    case WListing(_) => ListKeepsBound(s, limit);
    case WDropping(_, victims) =>
      if victims == [] { assert Staying(s) == DayNames(s.tables.Keys); } else { DropVictimKeepsBound(s, limit); }
    case WInserting(_, _) => assert Advanced(s, limit).tables.Keys == s.tables.Keys;
  }

  lemma DropKeepsBound(s: State, limit: nat, name: string)
    requires Bounded(s, limit)
    ensures Bounded(Executed(s, Drop(name), s.writer), limit)
  {
    var s' := Executed(s, Drop(name), s.writer);
    SubsetSize(DayNames(s'.tables.Keys), DayNames(s.tables.Keys));
    SubsetSize(Staying(s'), Staying(s));
  }

  /** From within the limit, wherever drops come between the statements of writes: never more than one
      table too many, and that only until the writer has dropped the surplus. */
  lemma {:induction false} NeverOverLimit(t0: Tables, limit: nat, es: seq<Event>)
    requires |DayNames(t0.Keys)| <= limit && Run(t0, limit, es).Some?
    ensures Bounded(Run(t0, limit, es).value, limit)
  {
    if es != [] {
      var s := Run(t0, limit, es[..|es| - 1]).value;
      NeverOverLimit(t0, limit, es[..|es| - 1]);
      match es[|es| - 1]
      case Begin(m) =>
      case Advance => AdvanceKeepsBound(s, limit);
      case DropTable(name) => DropKeepsBound(s, limit, name);
    }
  }

  // ----- where a table's rows come from -----

  /** The messages whose write has begun, in order. */
  function BegunIn(es: seq<Event>): seq<Msg> {
    if es == [] then []
    else BegunIn(es[..|es| - 1]) + (if es[|es| - 1].Begin? then [es[|es| - 1].msg] else [])
  }

  /** The rows that the write under way still has to insert into table `d`. */
  function Pending(w: Writer, d: string): seq<Row> {
    match w
    case WIdle => []
    case WCreating(m) => RowsFor(m, d)
    case WListing(m) => RowsFor(m, d)
    case WDropping(m, _) => RowsFor(m, d)
    case WInserting(m, next) => if next <= |RowsFor(m, d)| then RowsFor(m, d)[next..] else []
  }

  /** A writer that is not idle is at work on the message that began last, which has a day. */
  predicate AtWork(w: Writer, begun: seq<Msg>) {
    match w
    case WIdle => true
    case WInserting(m, next) =>
      begun != [] && m == begun[|begun| - 1] && DateOf(m.timestamp) != "" && next <= |m.registerMap|
    case _ => begun != [] && w.msg == begun[|begun| - 1] && DateOf(w.msg.timestamp) != ""
  }

  lemma BegunAppend(pre: seq<Event>, last: Event)
    ensures BegunIn(pre + [last]) == BegunIn(pre) + (if last.Begin? then [last.msg] else [])
  {
    assert (pre + [last])[..|pre|] == pre;
  }

  lemma {:induction false} RunKeepsAtWork(t0: Tables, limit: int, es: seq<Event>)
    requires Run(t0, limit, es).Some?
    ensures AtWork(Run(t0, limit, es).value.writer, BegunIn(es))
  {
    if es != [] { RunKeepsAtWork(t0, limit, es[..|es| - 1]); }
  }

  /** Inserting a row moves it from the pending ones to the table. */
  lemma InsertRows(s: State, limit: int, begun: seq<Msg>, d: string)
    requires s.writer.WInserting? && AtWork(s.writer, begun) && d in s.tables
    ensures var s' := Advanced(s, limit);
            d in s'.tables && s'.tables[d] + Pending(s'.writer, d) == s.tables[d] + Pending(s.writer, d)
  {
    var m, next := s.writer.msg, s.writer.next;
    if d == DateOf(m.timestamp) && next < |m.registerMap| {
      assert RowsOf(m)[next..] == [RowsOf(m)[next]] + RowsOf(m)[next + 1..];
      ConcatAssociative(s.tables[d], [RowsOf(m)[next]], RowsOf(m)[next + 1..]);
    }
  }

  /** One step: a table that stays holds, with what is pending for it, its rows and those of a new message. */
  lemma StepRows(s: State, limit: int, e: Event, begun: seq<Msg>, d: string)
    requires AtWork(s.writer, begun) && Step(s, limit, e).Some?
    requires d in s.tables && d in Step(s, limit, e).value.tables
    ensures var s' := Step(s, limit, e).value;
            s'.tables[d] + Pending(s'.writer, d)
            == s.tables[d] + Pending(s.writer, d) + (if e.Begin? then RowsFor(e.msg, d) else [])
  {
    match e
    case Begin(m) => assert s.tables[d] + [] == s.tables[d];
    case DropTable(_) =>
    case Advance => if s.writer.WInserting? { InsertRows(s, limit, begun, d); } else { PrepareRows(s, limit, d); }
  }

  /** Before it inserts, a write changes no table that stays. */
  lemma PrepareRows(s: State, limit: int, d: string)
    requires !s.writer.WIdle? && !s.writer.WInserting? && d in s.tables && d in Advanced(s, limit).tables
    ensures Advanced(s, limit).tables[d] == s.tables[d]
    ensures Pending(Advanced(s, limit).writer, d) == Pending(s.writer, d)
  {
  }

  /** A table appears only by the create of the write under way; all its rows are still pending. */
  lemma StepCreates(s: State, limit: int, e: Event, begun: seq<Msg>, d: string)
    requires AtWork(s.writer, begun) && Step(s, limit, e).Some?
    requires d !in s.tables && d in Step(s, limit, e).value.tables
    ensures e.Advance? && s.writer.WCreating? && DateOf(s.writer.msg.timestamp) == d
    ensures var s' := Step(s, limit, e).value;
            s'.tables[d] + Pending(s'.writer, d) == RowsFor(begun[|begun| - 1], d)
  {
  }

  /** Table `d` is there after every prefix of the events from the first `from` on. */
  ghost predicate PresentSince(t0: Tables, limit: int, es: seq<Event>, d: string, from: nat) {
    forall j :: from <= j <= |es| ==> Run(t0, limit, es[..j]).Some? && d in Run(t0, limit, es[..j]).value.tables
  }

  /** Event `j` created table `d`, which has existed ever since. */
  ghost predicate LastCreatedBy(t0: Tables, limit: int, es: seq<Event>, d: string, j: nat) {
    && j < |es| && es[j].Advance? && Run(t0, limit, es[..j]).Some?
    && (var s := Run(t0, limit, es[..j]).value;
        d !in s.tables && s.writer.WCreating? && DateOf(s.writer.msg.timestamp) == d)
    && BegunIn(es[..j]) != [] && PresentSince(t0, limit, es, d, j + 1)
  }

  /** The messages begun from the one on whose write event `j` works. */
  function BegunSince(es: seq<Event>, j: nat): seq<Msg>
    requires j <= |es| && BegunIn(es[..j]) != []
  {
    BegunGrows(es, j);
    BegunIn(es)[|BegunIn(es[..j])| - 1..]
  }

  /** A table was there at the start and never went away, or the write of a message was the last to create
      it. Its rows and those that the write under way still has to insert into it are then exactly the rows
      of its day of all messages begun since, in order. */
  ghost predicate Accounted(t0: Tables, limit: int, es: seq<Event>, d: string, rows: seq<Row>) {
    || (PresentSince(t0, limit, es, d, 0) && rows == RowsIn(t0, d) + Flatten(BegunIn(es), d))
    || (exists j: nat :: LastCreatedBy(t0, limit, es, d, j) && rows == Flatten(BegunSince(es, j), d))
  }

  lemma PresentExtends(t0: Tables, limit: int, pre: seq<Event>, last: Event, d: string, from: nat)
    requires PresentSince(t0, limit, pre, d, from)
    requires Run(t0, limit, pre + [last]).Some? && d in Run(t0, limit, pre + [last]).value.tables
    ensures PresentSince(t0, limit, pre + [last], d, from)
  {
    var es := pre + [last];
    forall j | from <= j <= |es|
      ensures Run(t0, limit, es[..j]).Some? && d in Run(t0, limit, es[..j]).value.tables
    {
      if j == |es| { assert es[..j] == es; } else { assert es[..j] == pre[..j]; }
    }
  }

  lemma {:induction false} BegunGrows(es: seq<Event>, j: nat)
    requires j <= |es|
    ensures BegunIn(es[..j]) <= BegunIn(es)
  {
    if j < |es| {
      BegunGrows(es[..|es| - 1], j);
      assert es[..|es| - 1][..j] == es[..j];
    } else {
      assert es[..j] == es;
    }
  }

  lemma BegunSinceAppend(pre: seq<Event>, last: Event, j: nat)
    requires j <= |pre| && BegunIn(pre[..j]) != []
    ensures (pre + [last])[..j] == pre[..j]
    ensures BegunSince(pre + [last], j) == BegunSince(pre, j) + (if last.Begin? then [last.msg] else [])
  {
    assert (pre + [last])[..j] == pre[..j];
    BegunAppend(pre, last);
    BegunGrows(pre, j);
  }

  /** The rows of a day, with one more message begun. */
  lemma FlattenBegun(ms: seq<Msg>, e: Event, d: string)
    ensures Flatten(ms + (if e.Begin? then [e.msg] else []), d)
         == Flatten(ms, d) + (if e.Begin? then RowsFor(e.msg, d) else [])
  {
    if e.Begin? { FlattenAppend(ms, e.msg, d); } else { assert ms + [] == ms; }
  }

  lemma StartSurvives(t0: Tables, limit: int, pre: seq<Event>, last: Event, d: string, rows: seq<Row>)
    requires PresentSince(t0, limit, pre, d, 0) && rows == RowsIn(t0, d) + Flatten(BegunIn(pre), d)
    requires Run(t0, limit, pre + [last]).Some? && d in Run(t0, limit, pre + [last]).value.tables
    ensures Accounted(t0, limit, pre + [last], d, rows + (if last.Begin? then RowsFor(last.msg, d) else []))
  {
    PresentExtends(t0, limit, pre, last, d, 0);
    BegunAppend(pre, last);
    FlattenBegun(BegunIn(pre), last, d);
    ConcatAssociative(RowsIn(t0, d), Flatten(BegunIn(pre), d), if last.Begin? then RowsFor(last.msg, d) else []);
  }

  lemma CreationExtends(t0: Tables, limit: int, pre: seq<Event>, last: Event, d: string, j: nat)
    requires LastCreatedBy(t0, limit, pre, d, j)
    requires Run(t0, limit, pre + [last]).Some? && d in Run(t0, limit, pre + [last]).value.tables
    ensures LastCreatedBy(t0, limit, pre + [last], d, j)
  {
    assert (pre + [last])[..j] == pre[..j];
    PresentExtends(t0, limit, pre, last, d, j + 1);
  }

  lemma CreationSurvives(t0: Tables, limit: int, pre: seq<Event>, last: Event, d: string, rows: seq<Row>, j: nat)
    requires LastCreatedBy(t0, limit, pre, d, j) && rows == Flatten(BegunSince(pre, j), d)
    requires Run(t0, limit, pre + [last]).Some? && d in Run(t0, limit, pre + [last]).value.tables
    ensures Accounted(t0, limit, pre + [last], d, rows + (if last.Begin? then RowsFor(last.msg, d) else []))
  {
    CreationExtends(t0, limit, pre, last, d, j);
    BegunSinceAppend(pre, last, j);
    FlattenBegun(BegunSince(pre, j), last, d);
  }

  lemma CreationIsNow(t0: Tables, limit: int, pre: seq<Event>, last: Event, s: State, d: string)
    requires Run(t0, limit, pre) == Some(s) && AtWork(s.writer, BegunIn(pre)) && d !in s.tables
    requires last.Advance? && s.writer.WCreating? && DateOf(s.writer.msg.timestamp) == d
    requires Run(t0, limit, pre + [last]).Some? && d in Run(t0, limit, pre + [last]).value.tables
    ensures Accounted(t0, limit, pre + [last], d, RowsFor(s.writer.msg, d))
  {
    CreatedJustNow(t0, limit, pre, last, s, d);
    BegunJustNow(pre, last, s.writer.msg);
    FlattenAppend([], s.writer.msg, d);
    assert [] + [s.writer.msg] == [s.writer.msg];
  }

  lemma CreatedJustNow(t0: Tables, limit: int, pre: seq<Event>, last: Event, s: State, d: string)
    requires Run(t0, limit, pre) == Some(s) && AtWork(s.writer, BegunIn(pre)) && d !in s.tables
    requires last.Advance? && s.writer.WCreating? && DateOf(s.writer.msg.timestamp) == d
    requires Run(t0, limit, pre + [last]).Some? && d in Run(t0, limit, pre + [last]).value.tables
    ensures LastCreatedBy(t0, limit, pre + [last], d, |pre|)
  {
    var es := pre + [last];
    assert es[..|pre|] == pre && es[..|es|] == es;
  }

  lemma BegunJustNow(pre: seq<Event>, last: Event, m: Msg)
    requires BegunIn(pre) != [] && m == BegunIn(pre)[|BegunIn(pre)| - 1] && !last.Begin?
    ensures (pre + [last])[..|pre|] == pre
    ensures BegunSince(pre + [last], |pre|) == [m]
  {
    assert (pre + [last])[..|pre|] == pre;
    BegunAppend(pre, last);
  }

  /** Wherever drops come between the statements of writes, no row is lost, added, changed or reordered in a
      table that stays: with the rows the write under way has yet to insert, it holds exactly the flattened
      messages of its day since its latest creation, or since the start. */
  lemma {:induction false} RowsAreThoseSinceCreation(t0: Tables, limit: int, es: seq<Event>, s: State, d: string)
    requires Run(t0, limit, es) == Some(s) && d in s.tables
    ensures Accounted(t0, limit, es, d, s.tables[d] + Pending(s.writer, d))
    decreases |es|
  {
    if es == [] {
      assert forall j | 0 <= j <= |es| :: es[..j] == es;
      assert s.tables[d] + [] == RowsIn(t0, d) + Flatten([], d);
    } else {
      var pre, last := es[..|es| - 1], es[|es| - 1];
      var was := Run(t0, limit, pre).value;
      assert es == pre + [last];
      RunKeepsAtWork(t0, limit, pre);
      if d in was.tables {
        RowsAreThoseSinceCreation(t0, limit, pre, was, d);
        StepRows(was, limit, last, BegunIn(pre), d);
        OneMoreEvent(t0, limit, pre, last, d, was.tables[d] + Pending(was.writer, d));
      } else {
        StepCreates(was, limit, last, BegunIn(pre), d);
        CreationIsNow(t0, limit, pre, last, was, d);
      }
    }
  }

  lemma OneMoreEvent(t0: Tables, limit: int, pre: seq<Event>, last: Event, d: string, rows: seq<Row>)
    requires Accounted(t0, limit, pre, d, rows)
    requires Run(t0, limit, pre + [last]).Some? && d in Run(t0, limit, pre + [last]).value.tables
    ensures Accounted(t0, limit, pre + [last], d, rows + (if last.Begin? then RowsFor(last.msg, d) else []))
  {
    if PresentSince(t0, limit, pre, d, 0) && rows == RowsIn(t0, d) + Flatten(BegunIn(pre), d) {
      StartSurvives(t0, limit, pre, last, d, rows);
    } else {
      var j: nat :| LastCreatedBy(t0, limit, pre, d, j) && rows == Flatten(BegunSince(pre, j), d);
      CreationSurvives(t0, limit, pre, last, d, rows, j);
    }
  }
}
