/** The store as a family of channels: when operations on one channel leave the others alone, and what a
    run over all channels does to each. */
module Channels {
  import opened Messages
  import opened Tables
  import opened Retention
  import opened Paths
  import opened Database

  ghost predicate OwnFiles(cfg: Config) {
    forall a: nat, b: nat :: 1 <= a < b <= cfg.maxChannels ==> cfg.path(a) != cfg.path(b)
  }

  /** No write, whatever fails in it, changes what another channel's database holds. */
  ghost predicate WritesAreLocal(cfg: Config) {
    forall files: Files, m: Msg, connected: bool, f: Faults, c: int ::
      HasChannel(cfg, c) && c != m.channel ==>
        ChannelTables(cfg, StoreWrite(cfg, files, m, connected, f), c) == ChannelTables(cfg, files, c)
  }

  /** Creating a table whose name is no day cannot be undone by the cleanup. */
  lemma NonDayTableAppears(limit: int, m: Msg)
    requires m.timestamp == "00000000"
    ensures "00000000" in Written(map[], limit, m, NO_FAULTS)
  {
    assert !IsDayName("00000000");
    CleanupHeals(Created(map[], "00000000"), limit, NO_FAULTS);
    assert DateOf(m.timestamp) == "00000000";
  }

  /** Channels are isolated exactly when the path buffer has room for the longest channel number. */
  lemma IsolationIff(maxChannels: nat, limit: int, dir: string)
    requires maxChannels < 0x8000_0000
    ensures WritesAreLocal(ConfigFor(maxChannels, limit, dir))
       <==> maxChannels <= 1 || |CStr(dir)| + 8 + |Pad2(maxChannels)| <= 255
  {
    var cfg := ConfigFor(maxChannels, limit, dir);
    PathsDistinctIff(dir, maxChannels);
    if PathsDistinct(dir, maxChannels) {
      OwnFilesAreLocal(cfg);
    } else {
      var a: nat, b: nat :| 1 <= a < b <= maxChannels && DbPath(dir, a) == DbPath(dir, b);
      var m := EMPTY_MSG.(channel := a, timestamp := "00000000");
      NonDayTableAppears(limit, m);
      assert HasChannel(cfg, b) && b != m.channel;
      assert cfg.path(a) == cfg.path(b);
      assert "00000000" in ChannelTables(cfg, StoreWrite(cfg, map[], m, true, NO_FAULTS), b);
      assert "00000000" !in ChannelTables(cfg, map[], b);
    }
  }

  lemma OwnFilesAreLocal(cfg: Config)
    requires OwnFiles(cfg)
    ensures WritesAreLocal(cfg)
  {
    forall files: Files, m: Msg, connected: bool, f: Faults, c: int | HasChannel(cfg, c) && c != m.channel
      ensures ChannelTables(cfg, StoreWrite(cfg, files, m, connected, f), c) == ChannelTables(cfg, files, c)
    {
      if HasChannel(cfg, m.channel) {
        assert PathOf(cfg, c) != PathOf(cfg, m.channel);
      }
    }
  }

  /** The configuration `main` uses: two channels, ten tables each. */
  const MAIN_CONFIG := ConfigFor(2, 10, "/root/data")

  lemma MainChannelsAreIsolated()
    ensures OwnFiles(MAIN_CONFIG) && WritesAreLocal(MAIN_CONFIG)
    ensures MAIN_CONFIG.limit == 10 && forall c: int :: HasChannel(MAIN_CONFIG, c) <==> c == 1 || c == 2
  {
    assert |CStr("/root/data")| <= 10;
    assert |Pad2(2)| == 2;
    PathsDistinctIff("/root/data", 2);
    OwnFilesAreLocal(MAIN_CONFIG);
  }

  /** Where the channels of a configuration have their files. */
  lemma ConfiguredPath(maxChannels: nat, limit: int, dir: string, c: int)
    requires '\0' !in dir && HasChannel(ConfigFor(maxChannels, limit, dir), c)
    requires |dir| + 8 + |Pad2(c)| + 3 <= 255
    ensures PathOf(ConfigFor(maxChannels, limit, dir), c) == dir + "/CHANNEL" + Pad2(c) + ".db"
  {
    ShortPath(dir, c);
  }

  /** Whether a write for day `DateOf(m.timestamp)` succeeds when no SQLite call fails of itself. */
  ghost predicate WriteSucceeds(cfg: Config, files: Files, m: Msg) {
    HasChannel(cfg, m.channel) && WriteOk(ChannelTables(cfg, files, m.channel), cfg.limit, m, NO_FAULTS)
  }

  /** On files within the limit, a write for a day fails exactly when its channel is out of range, or it
      has a row to insert and its day is new but older than a full set of retained days; it then changes
      no channel's tables. */
  lemma WriteMessageFailsIff(cfg: Config, files: Files, m: Msg, path: string)
    requires 0 <= cfg.limit && IsDayName(DateOf(m.timestamp))
    requires HasChannel(cfg, m.channel) ==> |DayNames(ChannelTables(cfg, files, m.channel).Keys)| <= cfg.limit
    ensures !WriteSucceeds(cfg, files, m) <==>
              || !HasChannel(cfg, m.channel)
              || (m.registerMap != [] && DateOf(m.timestamp) !in ChannelTables(cfg, files, m.channel)
                  && TooOld(ChannelTables(cfg, files, m.channel).Keys, cfg.limit, DateOf(m.timestamp)))
    ensures !WriteSucceeds(cfg, files, m) ==>
              TablesAt(StoreWrite(cfg, files, m, true, NO_FAULTS), path) == TablesAt(files, path)
  {
    if HasChannel(cfg, m.channel) { WriteFailsIff(ChannelTables(cfg, files, m.channel), cfg.limit, m); }
  }

  // ----- runs on all channels -----

  /** A call of `writeMessage` or `dropTable`, whether it got its connection, and what failed in it. */
  datatype Call =
    | Put(msg: Msg, connected: bool, faults: Faults)
    | Remove(channel: int, name: string, connected: bool, fails: bool)

  function ChannelOf(call: Call): int {
    match call
    case Put(m, _, _) => m.channel
    case Remove(channel, _, _, _) => channel
  }

  /** What a call does to all files. */
  ghost function Called(cfg: Config, files: Files, call: Call): Files {
    match call
    case Put(m, connected, f) => StoreWrite(cfg, files, m, connected, f)
    case Remove(channel, name, connected, fails) => StoreDrop(cfg, files, channel, name, connected, fails)
  }

  /** What it does to the tables of its own channel. */
  ghost function CalledOn(t: Tables, limit: int, call: Call): Tables {
    match call
    case Put(m, connected, f) => if connected then Written(t, limit, m, f) else t
    case Remove(_, name, connected, fails) => if connected && !fails then t - {name} else t
  }

  ghost function RunCalls(cfg: Config, files: Files, calls: seq<Call>): Files {
    if calls == [] then files else Called(cfg, RunCalls(cfg, files, calls[..|calls| - 1]), calls[|calls| - 1])
  }

  ghost function AfterCalls(t: Tables, limit: int, calls: seq<Call>): Tables {
    if calls == [] then t else CalledOn(AfterCalls(t, limit, calls[..|calls| - 1]), limit, calls[|calls| - 1])
  }

  function CallsOn(calls: seq<Call>, c: int): seq<Call> {
    if calls == [] then []
    else CallsOn(calls[..|calls| - 1], c) + (if ChannelOf(calls[|calls| - 1]) == c then [calls[|calls| - 1]] else [])
  }

  lemma RunCallsOneMore(cfg: Config, files: Files, calls: seq<Call>, call: Call)
    ensures RunCalls(cfg, files, calls + [call]) == Called(cfg, RunCalls(cfg, files, calls), call)
  {
    assert (calls + [call])[..|calls|] == calls;
  }

  lemma CalledLocally(cfg: Config, files: Files, call: Call, c: int)
    requires OwnFiles(cfg) && HasChannel(cfg, c)
    ensures ChannelTables(cfg, Called(cfg, files, call), c)
         == if ChannelOf(call) == c then CalledOn(ChannelTables(cfg, files, c), cfg.limit, call)
            else ChannelTables(cfg, files, c)
  {
    if HasChannel(cfg, ChannelOf(call)) && ChannelOf(call) != c {
      assert PathOf(cfg, c) != PathOf(cfg, ChannelOf(call));
    }
  }

  /** Whatever fails, each channel's database evolves as if the calls on it were the only ones. */
  lemma {:induction false} EachChannelOnItsOwn(cfg: Config, files: Files, calls: seq<Call>, c: int)
    requires OwnFiles(cfg) && HasChannel(cfg, c)
    ensures ChannelTables(cfg, RunCalls(cfg, files, calls), c)
         == AfterCalls(ChannelTables(cfg, files, c), cfg.limit, CallsOn(calls, c))
  {
    if calls != [] {
      var pre, last := calls[..|calls| - 1], calls[|calls| - 1];
      EachChannelOnItsOwn(cfg, files, pre, c);
      CalledLocally(cfg, RunCalls(cfg, files, pre), last, c);
      if ChannelOf(last) == c {
        assert CallsOn(calls, c)[..|CallsOn(calls, c)| - 1] == CallsOn(pre, c);
      } else {
        assert CallsOn(calls, c) == CallsOn(pre, c);
      }
    }
  }

  // ----- the messages a run of calls writes -----

  predicate Clean(call: Call) { call.Put? && call.connected && call.faults == NO_FAULTS }

  predicate AllClean(calls: seq<Call>) { forall k :: 0 <= k < |calls| ==> Clean(calls[k]) }

  function MessagesOf(calls: seq<Call>): seq<Msg> {
    if calls == [] then []
    else MessagesOf(calls[..|calls| - 1]) + (if calls[|calls| - 1].Put? then [calls[|calls| - 1].msg] else [])
  }

  lemma MessagesOfOneMore(calls: seq<Call>, call: Call)
    ensures MessagesOf(calls + [call]) == MessagesOf(calls) + (if call.Put? then [call.msg] else [])
  {
    assert (calls + [call])[..|calls|] == calls;
  }

  function OfChannel(ms: seq<Msg>, c: int): seq<Msg> {
    if ms == [] then []
    else OfChannel(ms[..|ms| - 1], c) + (if ms[|ms| - 1].channel == c then [ms[|ms| - 1]] else [])
  }

  lemma OfChannelOneMore(ms: seq<Msg>, m: Msg, c: int)
    ensures OfChannel(ms + [m], c) == OfChannel(ms, c) + (if m.channel == c then [m] else [])
  {
    assert (ms + [m])[..|ms|] == ms;
  }

  lemma {:induction false} CleanOnChannel(calls: seq<Call>, c: int)
    requires AllClean(calls)
    ensures AllClean(CallsOn(calls, c))
  {
    if calls != [] { CleanOnChannel(calls[..|calls| - 1], c); }
  }

  /** One more call, on the messages of the channel. */
  lemma OneMoreMessage(pre: seq<Call>, last: Call, mine: seq<Call>, c: int)
    requires MessagesOf(mine) == OfChannel(MessagesOf(pre), c)
    ensures OfChannel(MessagesOf(pre + [last]), c) == MessagesOf(if ChannelOf(last) == c then mine + [last] else mine)
  {
    MessagesOfOneMore(pre, last);
    MessagesOfOneMore(mine, last);
    if last.Put? {
      OfChannelOneMore(MessagesOf(pre), last.msg, c);
    } else {
      assert MessagesOf(pre) + [] == MessagesOf(pre);
    }
  }

  /** The messages written on a channel are those of the calls on it. */
  lemma {:induction false} MessagesOfChannel(calls: seq<Call>, c: int)
    ensures MessagesOf(CallsOn(calls, c)) == OfChannel(MessagesOf(calls), c)
  {
    if calls != [] {
      var pre, last := calls[..|calls| - 1], calls[|calls| - 1];
      assert calls == pre + [last];
      MessagesOfChannel(pre, c);
      OneMoreMessage(pre, last, CallsOn(pre, c), c);
      assert ChannelOf(last) != c ==> CallsOn(calls, c) == CallsOn(pre, c);
    }
  }

  /** Without failures, calls on a channel are the plain history of its writes. */
  lemma {:induction false} CleanCallsAreWrites(t: Tables, limit: int, calls: seq<Call>)
    requires AllClean(calls)
    ensures AfterCalls(t, limit, calls) == AfterWrites(t, limit, MessagesOf(calls))
  {
    if calls != [] {
      var pre := calls[..|calls| - 1];
      CleanCallsAreWrites(t, limit, pre);
      assert MessagesOf(calls)[..|MessagesOf(calls)| - 1] == MessagesOf(pre);
    }
  }
}
