/** Rotation of the log file, over an abstract log directory. */
module Logging {
  import opened Sequences

  const UINT64 := 0x1_0000_0000_0000_0000

  type uint64 = x: int | 0 <= x < UINT64

  type uint32 = x: int | 0 <= x < 0x1_0000_0000

  datatype Config = Config(level: nat, sizeThreshold: uint64, timeInterval: uint64, maxLogFiles: uint32)

  /** A compressed, rotated log file; its modification time is in seconds. */
  datatype Archive = Archive(mtime: int, content: string)

  /** The manager's bookkeeping and the directory it works on: the live file, rotated files that could not
      be compressed, and archives, by rotation stamp. */
  datatype LogState = LogState(
    isOpen: bool,
    currentFileSize: nat,
    fileCreateTime: int,
    live: string,
    leftovers: map<string, string>,
    archives: map<string, Archive>)

  /** The clock as one logged line meets it: in nanoseconds at the rotation check; as the stamp of a rotated
      file; in seconds when the archive is written; in nanoseconds when the live file is reopened. */
  datatype Clock = Clock(now: int, stamp: string, mtime: int, reopened: int)

  datatype Call = Call(level: nat, line: string, clock: Clock)

  /** How compressing a rotated file goes. If it breaks off, or the file cannot be removed afterwards, an
      archive with whatever `tar` wrote stays behind. */
  datatype Compression = Compressed | NotStarted | Broken(left: string)

  /** What fails in one operation: creating the log directory, opening the live file, renaming it, compressing
      it, opening the directory for a scan, examining these files in it, unlinking these archives. */
  datatype Faults = Faults(
    dirFails: bool,
    openFails: bool,
    renameFails: bool,
    compression: Compression,
    scanFails: bool,
    statFails: set<string>,
    unlinkFails: set<string>)

  /** duration_cast<seconds>: truncation toward zero. */
  function Seconds(nanoseconds: int): int {
    if nanoseconds < 0 then -((-nanoseconds) / 1_000_000_000) else nanoseconds / 1_000_000_000
  }

  /** The interval is unsigned, and so the elapsed time is compared modulo 2^64: a clock set back by a second
      or more counts as a very long time. */
  predicate TimeExceeded(cfg: Config, elapsed: int) { cfg.timeInterval <= elapsed % UINT64 }

  predicate Due(cfg: Config, s: LogState, now: int) {
    s.isOpen && (cfg.sizeThreshold <= s.currentFileSize || TimeExceeded(cfg, Seconds(now - s.fileCreateTime)))
  }

  predicate Oldest(a: map<string, Archive>, names: set<string>, x: string)
    requires names <= a.Keys
  {
    x in names && forall y :: y in names ==> a[x].mtime <= a[y].mtime
  }

  /** The archives a scan finds. */
  function Seen(archives: map<string, Archive>, f: Faults): map<string, Archive> {
    if f.scanFails then map[] else archives - f.statFails
  }

  /** All but `limit` of the archives, none of them newer than one of the others. */
  ghost predicate AreVictims(seen: map<string, Archive>, victims: set<string>, limit: nat) {
    && victims <= seen.Keys && |victims| + limit == |seen.Keys|
    && forall v, k :: v in victims && k in seen.Keys - victims ==> seen[v].mtime <= seen[k].mtime
  }

  /** These are the surplus archives, and `after` is what unlinking them leaves. */
  ghost predicate Unlinks(before: map<string, Archive>, after: map<string, Archive>, limit: nat, f: Faults,
                          victims: set<string>)
  {
    AreVictims(Seen(before, f), victims, limit) && after == before - (victims - f.unlinkFails)
  }

  /** A cleanup unlinks all but the newest `limit` of the archives it sees, less those whose unlink fails. */
  ghost predicate CleanedUp(before: map<string, Archive>, after: map<string, Archive>, limit: nat, f: Faults) {
    if |Seen(before, f).Keys| <= limit then after == before
    else exists victims :: Unlinks(before, after, limit, f, victims)
  }

  /** Distinct archives, oldest first. */
  ghost predicate ByAge(a: map<string, Archive>, files: seq<string>) {
    && (forall i :: 0 <= i < |files| ==> files[i] in a)
    && forall i, j :: 0 <= i < j < |files| ==> files[i] != files[j] && a[files[i]].mtime <= a[files[j]].mtime
  }

  ghost predicate Reopened(s: LogState, s': LogState, now: int, f: Faults) {
    && s'.isOpen == !f.openFails
    && (s'.isOpen ==> s'.currentFileSize == |s'.live| && s'.fileCreateTime == now)
    && (!s'.isOpen ==> s'.currentFileSize == s.currentFileSize && s'.fileCreateTime == s.fileCreateTime)
  }

  /** The archives once a rotated file with this content was compressed, as far as that went. */
  function ArchivesWith(archives: map<string, Archive>, content: string, clock: Clock, how: Compression)
    : map<string, Archive>
  {
    match how
    case Compressed => archives[clock.stamp := Archive(clock.mtime, content)]
    case NotStarted => archives
    case Broken(left) => archives[clock.stamp := Archive(clock.mtime, left)]
  }

  function LeftoversWith(leftovers: map<string, string>, content: string, stamp: string, how: Compression)
    : map<string, string>
  {
    if how.Compressed? then leftovers - {stamp} else leftovers[stamp := content]
  }

  ghost predicate Rotates(cfg: Config, s: LogState, s': LogState, clock: Clock, f: Faults) {
    && Reopened(s, s', clock.reopened, f)
    && if f.renameFails then
         s'.live == s.live && s'.leftovers == s.leftovers && s'.archives == s.archives
       else
         && s'.live == ""
         && s'.leftovers == LeftoversWith(s.leftovers, s.live, clock.stamp, f.compression)
         && CleanedUp(ArchivesWith(s.archives, s.live, clock, f.compression), s'.archives, cfg.maxLogFiles, f)
  }

  ghost predicate Appends(s: LogState, s': LogState, line: string) {
    s' == if s.isOpen then s.(live := s.live + line, currentFileSize := s.currentFileSize + |line|) else s
  }

  ghost predicate RotatesIfDue(cfg: Config, s: LogState, s': LogState, c: Call, f: Faults) {
    if Due(cfg, s, c.clock.now) then Rotates(cfg, s, s', c.clock, f) else s' == s
  }

  ghost predicate Logs(cfg: Config, s: LogState, s': LogState, c: Call, f: Faults) {
    if c.level < cfg.level then s' == s
    else exists r :: RotatesIfDue(cfg, s, r, c, f) && Appends(r, s', c.line)
  }

  class LogManager {
    var cfg: Config
    var isOpen: bool
    var currentFileSize: nat
    var fileCreateTime: int
    var live: string
    var leftovers: map<string, string>
    var archives: map<string, Archive>

    ghost function State(): LogState
      reads this
    {
      LogState(isOpen, currentFileSize, fileCreateTime, live, leftovers, archives)
    }

    /** The manager before `init`, on a directory with these files. */
    constructor (live: string, leftovers: map<string, string>, archives: map<string, Archive>)
      ensures State() == LogState(false, 0, 0, live, leftovers, archives)
      ensures cfg == Config(1, 0, 0, 10)
    {
      cfg := Config(1, 0, 0, 10);
      isOpen, currentFileSize, fileCreateTime := false, 0, 0;
      this.live, this.leftovers, this.archives := live, leftovers, archives;
    }

    method Init(config: Config, logPath: string, now: int, f: Faults) returns (ok: bool)
      modifies this
      ensures ok <==> logPath != "" && config.sizeThreshold != 0 && config.timeInterval != 0
                      && config.maxLogFiles != 0 && !f.dirFails && !f.openFails
      ensures ok ==> cfg == config && isOpen && currentFileSize == |live| && fileCreateTime == now
      ensures ok ==> CleanedUp(old(archives), archives, config.maxLogFiles, f)
      ensures !ok ==> archives == old(archives)
      ensures live == old(live) && leftovers == old(leftovers)
    {
      if logPath == "" || config.sizeThreshold == 0 || config.timeInterval == 0 || config.maxLogFiles == 0 {
        return false;
      }
      cfg := config;
      if f.dirFails { return false; }
      var ready := OpenNewLogFile(now, f);
      if !ready { return false; }
      CleanupOldLogs(f);
      return true;
    }

    method OpenNewLogFile(now: int, f: Faults) returns (ok: bool)
      modifies this`isOpen, this`fileCreateTime, this`currentFileSize
      ensures ok == isOpen && Reopened(old(State()), State(), now, f)
    {
      isOpen := false;
      if f.openFails { return false; }
      isOpen := true;
      fileCreateTime := now;
      currentFileSize := |live|;
      return true;
    }

    method CheckRotateCondition(now: int) returns (due: bool)
      ensures due <==> Due(cfg, State(), now)
    {
      if !isOpen { return false; }
      var sizeExceed := currentFileSize >= cfg.sizeThreshold;
      var timeExceed := TimeExceeded(cfg, Seconds(now - fileCreateTime));
      return sizeExceed || timeExceed;
    }

    /** Compressing the rotated file of this stamp, which then goes away. */
    method CompressLogFile(clock: Clock, f: Faults) returns (ok: bool)
      requires clock.stamp in leftovers
      modifies this`leftovers, this`archives
      ensures ok == f.compression.Compressed?
      ensures archives == ArchivesWith(old(archives), old(leftovers[clock.stamp]), clock, f.compression)
      ensures leftovers == if ok then old(leftovers) - {clock.stamp} else old(leftovers)
    {
      match f.compression
      case NotStarted => return false;
      case Broken(left) =>
        archives := archives[clock.stamp := Archive(clock.mtime, left)];
        return false;
      case Compressed =>
        archives := archives[clock.stamp := Archive(clock.mtime, leftovers[clock.stamp])];
        leftovers := leftovers - {clock.stamp};
        return true;
    }

    /** The archives a scan finds, oldest first; the order of equally old ones is the sort's choice. */
    method ScanLogFiles(f: Faults) returns (files: seq<string>)
      ensures ByAge(Seen(archives, f), files) && forall x :: x in files <==> x in Seen(archives, f)
    {
      files := [];
      if f.scanFails { return; }
      var found := archives - f.statFails;
      var rest := found.Keys;
      while rest != {}
        invariant rest <= found.Keys && forall x :: x in files <==> x in found.Keys - rest
        invariant ByAge(found, files)
        invariant forall i, x :: 0 <= i < |files| && x in rest ==> found[files[i]].mtime <= found[x].mtime
        decreases rest
      {
        OldestExists(found, rest);
        var x :| Oldest(found, rest, x);
        assert forall i :: 0 <= i < |files| ==> files[i] in files;
        files := files + [x];
        rest := rest - {x};
      }
    }

    /** The loop of `cleanupOldLogs`: a failing unlink does not stop the others. */
    method UnlinkOldest(files: seq<string>, deleteCount: nat, f: Faults)
      requires deleteCount <= |files|
      modifies this`archives
      ensures archives == Unlinked(old(archives), files, deleteCount, f.unlinkFails)
    {
      for i := 0 to deleteCount
        invariant archives == Unlinked(old(archives), files, i, f.unlinkFails)
      {
        if files[i] !in f.unlinkFails { archives := archives - {files[i]}; }
      }
    }

    method CleanupOldLogs(f: Faults)
      modifies this`archives
      ensures CleanedUp(old(archives), archives, cfg.maxLogFiles, f)
    {
      var files := ScanLogFiles(f);
      if |files| <= cfg.maxLogFiles {
        NothingToUnlink(archives, files, cfg.maxLogFiles, f);
        return;
      }
      UnlinkingCleansUp(archives, files, cfg.maxLogFiles, f);
      UnlinkOldest(files, |files| - cfg.maxLogFiles, f);
    }

    method RotateLog(clock: Clock, f: Faults)
      modifies this`isOpen, this`fileCreateTime, this`currentFileSize, this`live, this`leftovers, this`archives
      ensures Rotates(cfg, old(State()), State(), clock, f)
    {
      isOpen := false;
      if !f.renameFails { MoveAway(clock, f); }
      var _ := OpenNewLogFile(clock.reopened, f);
    }

    /** What follows a successful rename. */
    method MoveAway(clock: Clock, f: Faults)
      modifies this`live, this`leftovers, this`archives
      ensures live == ""
      ensures leftovers == LeftoversWith(old(leftovers), old(live), clock.stamp, f.compression)
      ensures CleanedUp(ArchivesWith(old(archives), old(live), clock, f.compression), archives, cfg.maxLogFiles, f)
    {
      PutAndRemoved(leftovers, clock.stamp, live);
      leftovers, live := leftovers[clock.stamp := live], "";
      var _ := CompressLogFile(clock, f);
      CleanupOldLogs(f);
    }

    method RotateIfDue(c: Call, f: Faults)
      modifies this`isOpen, this`fileCreateTime, this`currentFileSize, this`live, this`leftovers, this`archives
      ensures RotatesIfDue(cfg, old(State()), State(), c, f)
    {
      var due := CheckRotateCondition(c.clock.now);
      if due { RotateLog(c.clock, f); }
    }

    method Log(c: Call, f: Faults)
      modifies this`isOpen, this`fileCreateTime, this`currentFileSize, this`live, this`leftovers, this`archives
      ensures Logs(cfg, old(State()), State(), c, f)
    {
      if c.level < cfg.level { return; }
      RotateIfDue(c, f);
      ghost var r := State();
      if isOpen {
        live := live + c.line;
        currentFileSize := currentFileSize + |c.line|;
      }
      assert Appends(r, State(), c.line);
    }
  }

  lemma PutAndRemoved(m: map<string, string>, k: string, v: string)
    ensures m[k := v] - {k} == m - {k}
  {
  }

  lemma {:induction false} OldestExists(a: map<string, Archive>, names: set<string>)
    requires names <= a.Keys && names != {}
    ensures exists x :: Oldest(a, names, x)
    decreases names
  {
    var x :| x in names;
    if names == {x} {
      assert Oldest(a, names, x);
    } else {
      OldestExists(a, names - {x});
      var z :| Oldest(a, names - {x}, z);
      assert Oldest(a, names, if a[x].mtime <= a[z].mtime then x else z);
    }
  }

  lemma {:induction false} NoDuplicates(files: seq<string>, names: set<string>)
    requires forall i, j :: 0 <= i < j < |files| ==> files[i] != files[j]
    requires forall x :: x in files <==> x in names
    ensures |files| == |names|
  {
    if files != [] {
      var n := |files| - 1;
      assert files == files[..n] + [files[n]];
      NoDuplicates(files[..n], names - {files[n]});
    } else {
      assert names == {};
    }
  }

  /** Unlinking archives one after the other; a failing unlink leaves its archive. */
  ghost function Unlinked(before: map<string, Archive>, files: seq<string>, n: nat, fails: set<string>): map<string, Archive>
    requires n <= |files|
  {
    if n == 0 then before
    else Unlinked(before, files, n - 1, fails) - (if files[n - 1] in fails then {} else {files[n - 1]})
  }

  lemma {:induction false} UnlinkedLeaves(before: map<string, Archive>, files: seq<string>, n: nat, fails: set<string>)
    requires n <= |files|
    ensures Unlinked(before, files, n, fails) == before - (Elements(files[..n]) - fails)
  {
    if n == 0 {
      assert Elements(files[..n]) - fails == {};
    } else {
      UnlinkedLeaves(before, files, n - 1, fails);
      assert files[..n] == files[..n - 1] + [files[n - 1]];
      assert Elements(files[..n]) == Elements(files[..n - 1]) + {files[n - 1]};
    }
  }

  lemma OldestAreVictims(before: map<string, Archive>, files: seq<string>, n: nat)
    requires ByAge(before, files) && n <= |files|
    requires forall x :: x in files <==> x in before
    ensures AreVictims(before, Elements(files[..n]), |files| - n)
  {
    var victims := Elements(files[..n]);
    NoDuplicates(files, before.Keys);
    NoDuplicates(files[..n], victims);
    forall v, k | v in victims && k in before.Keys - victims ensures before[v].mtime <= before[k].mtime {
      var i :| 0 <= i < n && files[..n][i] == v;
      var j :| 0 <= j < |files| && files[j] == k;
      assert forall x :: 0 <= x < n ==> files[..n][x] == files[x] && files[x] in victims;
    }
  }

  lemma NothingToUnlink(before: map<string, Archive>, files: seq<string>, limit: nat, f: Faults)
    requires ByAge(Seen(before, f), files) && (forall x :: x in files <==> x in Seen(before, f))
    requires |files| <= limit
    ensures CleanedUp(before, before, limit, f)
  {
    NoDuplicates(files, Seen(before, f).Keys);
  }

  /** Unlinking the surplus from the front of the listing is a cleanup. */
  lemma UnlinkingCleansUp(before: map<string, Archive>, files: seq<string>, limit: nat, f: Faults)
    requires ByAge(Seen(before, f), files) && (forall x :: x in files <==> x in Seen(before, f))
    requires limit < |files|
    ensures CleanedUp(before, Unlinked(before, files, |files| - limit, f.unlinkFails), limit, f)
  {
    var n := |files| - limit;
    var victims := Elements(files[..n]);
    NoDuplicates(files, Seen(before, f).Keys);
    UnlinkedLeaves(before, files, n, f.unlinkFails);
    OldestAreVictims(Seen(before, f), files, n);
    IsCleanup(before, Unlinked(before, files, n, f.unlinkFails), limit, f, victims);
  }

  lemma IsCleanup(before: map<string, Archive>, after: map<string, Archive>, limit: nat, f: Faults,
                  victims: set<string>)
    requires limit < |Seen(before, f).Keys| && AreVictims(Seen(before, f), victims, limit)
    requires after == before - (victims - f.unlinkFails)
    ensures CleanedUp(before, after, limit, f)
  {
    assert Unlinks(before, after, limit, f, victims);
  }

  // ----- one cleanup -----

  predicate CleanupWorks(f: Faults) { !f.scanFails && f.statFails == {} && f.unlinkFails == {} }

  /** Whatever fails and whatever there was before: an archive that a cleanup removes is no newer than one
      that it examined and could have removed, but kept. Nothing else changes. */
  lemma RemovedAreOlder(before: map<string, Archive>, after: map<string, Archive>, limit: nat, f: Faults,
                        removed: string, kept: string)
    requires CleanedUp(before, after, limit, f)
    requires removed in before.Keys - after.Keys
    requires kept in after.Keys - f.statFails - f.unlinkFails
    ensures kept in before && before[removed].mtime <= before[kept].mtime && after[kept] == before[kept]
  {
    var victims :| Unlinks(before, after, limit, f, victims);
    assert kept in Seen(before, f).Keys - victims;
  }

  /** `archives` are the newest `limit` of these. */
  ghost predicate AreNewest(archives: map<string, Archive>, all: map<string, Archive>, limit: nat) {
    && (forall x :: x in archives ==> x in all && archives[x] == all[x])
    && |archives.Keys| == (if |all.Keys| <= limit then |all.Keys| else limit)
    && forall v, k :: v in all.Keys - archives.Keys && k in archives ==> all[v].mtime <= all[k].mtime
  }

  /** A cleanup in which nothing fails heals any excess: it leaves the newest `limit` archives. */
  lemma CleanupHeals(before: map<string, Archive>, after: map<string, Archive>, limit: nat, f: Faults)
    requires CleanedUp(before, after, limit, f) && CleanupWorks(f)
    ensures AreNewest(after, before, limit)
  {
    SeesAll(before, f);
    if limit < |before.Keys| {
      var victims :| Unlinks(before, after, limit, f, victims);
      UnlinksAll(before, after, limit, f, victims);
    }
  }

  lemma UnlinksAll(before: map<string, Archive>, after: map<string, Archive>, limit: nat, f: Faults,
                   victims: set<string>)
    requires CleanupWorks(f) && Unlinks(before, after, limit, f, victims)
    ensures AreNewest(after, before, limit)
  {
    SeesAll(before, f);
    assert victims - f.unlinkFails == victims;
    KeysWithout(before, victims);
  }

  /** If no two of them are equally old, that says which ones. */
  lemma NewestAreDetermined(a: map<string, Archive>, b: map<string, Archive>, all: map<string, Archive>, limit: nat)
    requires AreNewest(a, all, limit) && AreNewest(b, all, limit)
    requires forall x, y :: x in all && y in all && x != y ==> all[x].mtime != all[y].mtime
    ensures a == b
  {
    if a.Keys != b.Keys { var _, _ := Differ(a.Keys, b.Keys); }
  }

  lemma Differ(a: set<string>, b: set<string>) returns (x: string, y: string)
    requires |a| == |b| && a != b
    ensures x in a - b && y in b - a
  {
    assert a == (a - b) + (a * b) && b == (b - a) + (a * b);
    assert a - b != {} && b - a != {};
    x :| x in a - b;
    y :| y in b - a;
  }

  lemma SeesAll(archives: map<string, Archive>, f: Faults)
    requires CleanupWorks(f)
    ensures Seen(archives, f) == archives
  {
  }

  lemma KeysWithout<K, V>(m: map<K, V>, s: set<K>)
    requires s <= m.Keys
    ensures (m - s).Keys == m.Keys - s && |(m - s).Keys| == |m.Keys| - |s|
  {
    assert (m - s).Keys == m.Keys - s;
  }

  // ----- runs -----

  /** What one rotation moved out of the live file. */
  datatype Segment = Segment(stamp: string, mtime: int, content: string)

  ghost predicate IsRun(cfg: Config, ss: seq<LogState>, cs: seq<Call>, fs: seq<Faults>) {
    |ss| == |cs| + 1 && |fs| == |cs| && forall i :: 0 <= i < |cs| ==> Logs(cfg, ss[i], ss[i + 1], cs[i], fs[i])
  }

  /** The segment that a logged line moves away, if any. */
  function SegmentOf(cfg: Config, s: LogState, c: Call, f: Faults): seq<Segment> {
    if cfg.level <= c.level && Due(cfg, s, c.clock.now) && !f.renameFails
    then [Segment(c.clock.stamp, c.clock.mtime, s.live)] else []
  }

  /** The successful rotations of a run, in order. */
  function Segments(cfg: Config, ss: seq<LogState>, cs: seq<Call>, fs: seq<Faults>): seq<Segment>
    requires |ss| == |cs| + 1 && |fs| == |cs|
  {
    if cs == [] then []
    else
      var n := |cs| - 1;
      Segments(cfg, ss[..n + 1], cs[..n], fs[..n]) + SegmentOf(cfg, ss[n], cs[n], fs[n])
  }

  /** What a logged line adds: nothing below the level, or when the live file could not be reopened. */
  function TextOf(cfg: Config, s': LogState, c: Call): string {
    if c.level < cfg.level || !s'.isOpen then "" else c.line
  }

  function Text(cfg: Config, ss: seq<LogState>, cs: seq<Call>): string
    requires |ss| == |cs| + 1
  {
    if cs == [] then ""
    else
      var n := |cs| - 1;
      Text(cfg, ss[..n + 1], cs[..n]) + TextOf(cfg, ss[n + 1], cs[n])
  }

  function Contents(segs: seq<Segment>): string {
    if segs == [] then "" else Contents(segs[..|segs| - 1]) + segs[|segs| - 1].content
  }

  predicate Measured(s: LogState) { s.isOpen ==> s.currentFileSize == |s.live| }

  lemma ContentsAppend(segs: seq<Segment>, seg: Segment)
    ensures Contents(segs + [seg]) == Contents(segs) + seg.content
  {
    assert (segs + [seg])[..|segs|] == segs;
  }

  lemma RotatedLive(cfg: Config, s: LogState, r: LogState, c: Call, f: Faults)
    requires RotatesIfDue(cfg, s, r, c, f) && cfg.level <= c.level
    ensures Measured(s) ==> Measured(r)
    ensures r.live == if SegmentOf(cfg, s, c, f) == [] then s.live else ""
  {
  }

  /** One logged line: what was in the live file is there still or was moved away, and the line follows. */
  lemma LineStep(cfg: Config, s: LogState, s': LogState, c: Call, f: Faults)
    requires Logs(cfg, s, s', c, f)
    ensures Measured(s) ==> Measured(s')
    ensures s'.live == (if SegmentOf(cfg, s, c, f) == [] then s.live else "") + TextOf(cfg, s', c)
  {
    if cfg.level <= c.level {
      var r :| RotatesIfDue(cfg, s, r, c, f) && Appends(r, s', c.line);
      RotatedLive(cfg, s, r, c, f);
      assert r.live + "" == r.live;
    }
  }

  lemma TextStep(segs: seq<Segment>, live: string, more: seq<Segment>, live': string, start: string,
                 text: string, line: string)
    requires Contents(segs) + live == start + text
    requires more == [] || (|more| == 1 && more[0].content == live)
    requires live' == (if more == [] then live else "") + line
    ensures Contents(segs + more) + live' == start + (text + line)
  {
    ConcatAssociative(start, text, line);
    if more == [] {
      assert segs + more == segs;
      ConcatAssociative(Contents(segs), live, line);
    } else {
      assert more == [more[0]];
      ContentsAppend(segs, more[0]);
      assert "" + line == line;
    }
  }

  /** In every run, whatever fails: while the live file is open its length is known, and the segments moved
      away, followed by the live file, are what was there at the start and then every line logged at or
      above the level while the file was open, in order. */
  lemma {:induction false} NothingLostOverRuns(cfg: Config, ss: seq<LogState>, cs: seq<Call>, fs: seq<Faults>)
    requires IsRun(cfg, ss, cs, fs)
    ensures Measured(ss[0]) ==> Measured(ss[|cs|])
    ensures Contents(Segments(cfg, ss, cs, fs)) + ss[|cs|].live == ss[0].live + Text(cfg, ss, cs)
  {
    if cs == [] {
      assert Contents([]) + ss[0].live == ss[0].live + "";
    } else {
      var n := |cs| - 1;
      NothingLostOverRuns(cfg, ss[..n + 1], cs[..n], fs[..n]);
      LineStep(cfg, ss[n], ss[n + 1], cs[n], fs[n]);
      TextStep(Segments(cfg, ss[..n + 1], cs[..n], fs[..n]), ss[n].live, SegmentOf(cfg, ss[n], cs[n], fs[n]),
               ss[n + 1].live, ss[0].live, Text(cfg, ss[..n + 1], cs[..n]), TextOf(cfg, ss[n + 1], cs[n]));
    }
  }

  /** Once a live file could not be reopened, no later line is logged, and no rotation tries again. */
  lemma {:induction false} ClosedStaysClosed(cfg: Config, ss: seq<LogState>, cs: seq<Call>, fs: seq<Faults>)
    requires IsRun(cfg, ss, cs, fs) && !ss[0].isOpen
    ensures ss[|cs|] == ss[0]
  {
    if cs != [] {
      var n := |cs| - 1;
      ClosedStaysClosed(cfg, ss[..n + 1], cs[..n], fs[..n]);
      assert Logs(cfg, ss[n], ss[n + 1], cs[n], fs[n]);
    }
  }

  // ----- time -----

  const SECOND := 1_000_000_000

  ghost predicate RotatesThenAppends(cfg: Config, s: LogState, s': LogState, c: Call, f: Faults) {
    exists r :: Rotates(cfg, s, r, c.clock, f) && Appends(r, s', c.line)
  }

  /** The clock at the check, in nanoseconds, with respect to when the file was opened: an interval or more
      has passed, or the clock was set back by a second or more, but not by almost 2^64 seconds. */
  predicate TimeIsUp(cfg: Config, openedAt: int, now: int) {
    || openedAt + cfg.timeInterval * SECOND <= now
    || (SECOND <= openedAt - now && (openedAt - now) / SECOND + cfg.timeInterval <= UINT64)
  }

  /** A line at or above the level goes into the open file as it is, unless the file has reached its size or
      its time is up; then, and only then, the file is rotated first. */
  lemma RotatedIff(cfg: Config, s: LogState, s': LogState, c: Call, f: Faults)
    requires Logs(cfg, s, s', c, f) && cfg.level <= c.level && s.isOpen && 0 < cfg.timeInterval
    requires -(UINT64 * SECOND) < c.clock.now - s.fileCreateTime < UINT64 * SECOND
    ensures if cfg.sizeThreshold <= s.currentFileSize || TimeIsUp(cfg, s.fileCreateTime, c.clock.now)
            then RotatesThenAppends(cfg, s, s', c, f)
            else s' == s.(live := s.live + c.line, currentFileSize := s.currentFileSize + |c.line|)
  {
    DueIff(cfg, s, c.clock.now);
  }

  lemma DueIff(cfg: Config, s: LogState, now: int)
    requires s.isOpen && 0 < cfg.timeInterval
    requires -(UINT64 * SECOND) < now - s.fileCreateTime < UINT64 * SECOND
    ensures Due(cfg, s, now) <==> cfg.sizeThreshold <= s.currentFileSize || TimeIsUp(cfg, s.fileCreateTime, now)
  {
    var elapsed := now - s.fileCreateTime;
    if elapsed < 0 {
      assert Seconds(elapsed) % UINT64 == if elapsed <= -SECOND then UINT64 + Seconds(elapsed) else 0;
    } else {
      assert Seconds(elapsed) % UINT64 == Seconds(elapsed);
    }
  }

  /** All times of the calls are within 2^64 seconds from `start`, and none is before an earlier one. */
  predicate GoesOn(start: int, cs: seq<Call>) {
    && (forall i :: 0 <= i < |cs| ==> start <= cs[i].clock.now <= cs[i].clock.reopened < start + UINT64 * SECOND)
    && forall i, j :: 0 <= i < j < |cs| ==> cs[i].clock.reopened <= cs[j].clock.now
  }

  predicate RotationWorks(fs: seq<Faults>) { forall i :: 0 <= i < |fs| ==> !fs[i].renameFails && !fs[i].openFails }

  /** The live file is open, and was opened at the start or by an earlier call. */
  lemma {:induction false} OpenedBefore(cfg: Config, ss: seq<LogState>, cs: seq<Call>, fs: seq<Faults>, start: int,
                                        n: nat)
    requires IsRun(cfg, ss, cs, fs) && RotationWorks(fs) && GoesOn(start, cs) && n <= |cs|
    requires ss[0].isOpen && ss[0].fileCreateTime == start
    ensures ss[n].isOpen && (ss[n].fileCreateTime == start
                             || exists j :: 0 <= j < n && ss[n].fileCreateTime == cs[j].clock.reopened)
  {
    if 0 < n {
      OpenedBefore(cfg, ss, cs, fs, start, n - 1);
      OpenedStep(cfg, ss[n - 1], ss[n], cs[n - 1], fs[n - 1]);
    }
  }

  lemma OpenedStep(cfg: Config, s: LogState, s': LogState, c: Call, f: Faults)
    requires Logs(cfg, s, s', c, f) && s.isOpen && !f.openFails
    ensures s'.isOpen && (s'.fileCreateTime == s.fileCreateTime || s'.fileCreateTime == c.clock.reopened)
  {
    if cfg.level <= c.level { var r :| RotatesIfDue(cfg, s, r, c, f) && Appends(r, s', c.line); }
  }

  /** While rotating works and the clock is not set back, every line at or above the level lands in a file
      opened less than the interval before. */
  lemma LinesLandInFreshFiles(cfg: Config, ss: seq<LogState>, cs: seq<Call>, fs: seq<Faults>, start: int, i: nat)
    requires IsRun(cfg, ss, cs, fs) && RotationWorks(fs) && GoesOn(start, cs)
    requires ss[0].isOpen && ss[0].fileCreateTime == start && 0 < cfg.timeInterval
    requires i < |cs| && cfg.level <= cs[i].level
    ensures ss[i + 1].isOpen && cs[i].clock.now < ss[i + 1].fileCreateTime + cfg.timeInterval * SECOND
    ensures cs[i].line == ss[i + 1].live[|ss[i + 1].live| - |cs[i].line|..]
  {
    OpenedBefore(cfg, ss, cs, fs, start, i);
    FreshStep(cfg, ss[i], ss[i + 1], cs[i], fs[i]);
  }

  lemma FreshStep(cfg: Config, s: LogState, s': LogState, c: Call, f: Faults)
    requires Logs(cfg, s, s', c, f) && cfg.level <= c.level && s.isOpen && 0 < cfg.timeInterval
    requires !f.renameFails && !f.openFails
    requires s.fileCreateTime <= c.clock.now <= c.clock.reopened < s.fileCreateTime + UINT64 * SECOND
    ensures s'.isOpen && c.clock.now < s'.fileCreateTime + cfg.timeInterval * SECOND
  {
    RotatedIff(cfg, s, s', c, f);
  }

  // ----- sizes -----

  predicate LinesWithin(cs: seq<Call>, longest: nat) { forall i :: 0 <= i < |cs| ==> |cs[i].line| <= longest }

  predicate NoRenameFails(fs: seq<Faults>) { forall i :: 0 <= i < |fs| ==> !fs[i].renameFails }

  /** Neither the live file nor any segment has reached `bound`. */
  predicate Within(s: LogState, segs: seq<Segment>, bound: nat) {
    |s.live| < bound && forall i :: 0 <= i < |segs| ==> |segs[i].content| < bound
  }

  lemma WithinStep(cfg: Config, s: LogState, s': LogState, c: Call, f: Faults, segs: seq<Segment>, bound: nat)
    requires Measured(s) && Within(s, segs, bound) && Logs(cfg, s, s', c, f) && !f.renameFails
    requires 0 < cfg.sizeThreshold && cfg.sizeThreshold + |c.line| <= bound
    ensures Within(s', segs + SegmentOf(cfg, s, c, f), bound)
  {
    LineStep(cfg, s, s', c, f);
  }

  /** As long as renaming works, no segment and no live file reaches the threshold plus the longest line,
      unless the live file was longer at the start; then nothing gets longer than that. */
  lemma {:induction false} SizesOverRuns(cfg: Config, ss: seq<LogState>, cs: seq<Call>, fs: seq<Faults>,
                                         longest: nat, bound: nat)
    requires IsRun(cfg, ss, cs, fs) && LinesWithin(cs, longest) && NoRenameFails(fs) && 0 < cfg.sizeThreshold
    requires Measured(ss[0]) && |ss[0].live| < bound && cfg.sizeThreshold + longest <= bound
    ensures Within(ss[|cs|], Segments(cfg, ss, cs, fs), bound)
  {
    if cs != [] {
      var n := |cs| - 1;
      SizesOverRuns(cfg, ss[..n + 1], cs[..n], fs[..n], longest, bound);
      NothingLostOverRuns(cfg, ss[..n + 1], cs[..n], fs[..n]);
      WithinStep(cfg, ss[n], ss[n + 1], cs[n], fs[n], Segments(cfg, ss[..n + 1], cs[..n], fs[..n]), bound);
    }
  }

  // ----- archives -----

  predicate AllCleanupsWork(fs: seq<Faults>) { forall i :: 0 <= i < |fs| ==> CleanupWorks(fs[i]) }

  /** The archives change only when a segment is moved away, by a cleanup after it was compressed. */
  lemma ArchivesStep(cfg: Config, s: LogState, s': LogState, c: Call, f: Faults)
    requires Logs(cfg, s, s', c, f)
    ensures if SegmentOf(cfg, s, c, f) == [] then s'.archives == s.archives
            else CleanedUp(ArchivesWith(s.archives, s.live, c.clock, f.compression), s'.archives, cfg.maxLogFiles, f)
  {
    if cfg.level <= c.level {
      var r :| RotatesIfDue(cfg, s, r, c, f) && Appends(r, s', c.line);
      assert s'.archives == r.archives;
    }
  }

  /** From the first rotation on there are never more archives than allowed, however many there were before
      and however compression fails, as long as cleanups work. */
  lemma {:induction false} ArchivesOverRuns(cfg: Config, ss: seq<LogState>, cs: seq<Call>, fs: seq<Faults>)
    requires IsRun(cfg, ss, cs, fs) && AllCleanupsWork(fs)
    ensures if Segments(cfg, ss, cs, fs) == [] then ss[|cs|].archives == ss[0].archives
            else |ss[|cs|].archives.Keys| <= cfg.maxLogFiles
  {
    if cs != [] {
      var n := |cs| - 1;
      var s, c, f := ss[n], cs[n], fs[n];
      ArchivesOverRuns(cfg, ss[..n + 1], cs[..n], fs[..n]);
      ArchivesStep(cfg, s, ss[n + 1], c, f);
      if SegmentOf(cfg, s, c, f) != [] {
        CleanupHeals(ArchivesWith(s.archives, s.live, c.clock, f.compression), ss[n + 1].archives, cfg.maxLogFiles, f);
      }
    }
  }

  /** In any run, whatever fails, in each rotation: no archive removed is newer than one that the cleanup
      examined and could have removed, but kept. */
  lemma RotationsRemoveOlder(cfg: Config, ss: seq<LogState>, cs: seq<Call>, fs: seq<Faults>, i: nat,
                             removed: string, kept: string)
    requires IsRun(cfg, ss, cs, fs) && i < |cs|
    requires removed in ss[i].archives.Keys - ss[i + 1].archives.Keys
    requires kept in ss[i + 1].archives.Keys - fs[i].statFails - fs[i].unlinkFails
    ensures var added := ArchivesWith(ss[i].archives, ss[i].live, cs[i].clock, fs[i].compression);
            && removed in added && kept in added && added[removed].mtime <= added[kept].mtime
  {
    var s, s', c, f := ss[i], ss[i + 1], cs[i], fs[i];
    assert Logs(cfg, s, s', c, f);
    ArchivesStep(cfg, s, s', c, f);
    RemovedAreOlder(ArchivesWith(s.archives, s.live, c.clock, f.compression), s'.archives, cfg.maxLogFiles, f,
                    removed, kept);
  }

  // ----- which archives there are -----

  predicate AllArchivingWorks(fs: seq<Faults>) {
    forall i :: 0 <= i < |fs| ==> CleanupWorks(fs[i]) && fs[i].compression.Compressed?
  }

  /** All that was ever archived: what there was at the start, and then every segment. */
  function EverArchived(start: map<string, Archive>, segs: seq<Segment>): map<string, Archive> {
    if segs == [] then start
    else
      var last := segs[|segs| - 1];
      EverArchived(start, segs[..|segs| - 1])[last.stamp := Archive(last.mtime, last.content)]
  }

  /** The stamps are new ones, and the clock was not set back between rotations. */
  predicate InOrder(start: map<string, Archive>, segs: seq<Segment>) {
    && (forall i, j :: 0 <= i < j < |segs| ==> segs[i].mtime <= segs[j].mtime && segs[i].stamp != segs[j].stamp)
    && (forall i :: 0 <= i < |segs| ==> segs[i].stamp !in start)
    && (forall i, x :: 0 <= i < |segs| && x in start ==> start[x].mtime <= segs[i].mtime)
  }

  lemma {:induction false} NewSegmentIsNewest(start: map<string, Archive>, segs: seq<Segment>, seg: Segment)
    requires InOrder(start, segs + [seg])
    ensures seg.stamp !in EverArchived(start, segs)
    ensures forall x :: x in EverArchived(start, segs) ==> EverArchived(start, segs)[x].mtime <= seg.mtime
  {
    var all := segs + [seg];
    assert all[|segs|] == seg;
    if segs != [] {
      var pre := segs[..|segs| - 1];
      assert all[|segs| - 1] == segs[|segs| - 1];
      InOrderWithout(start, segs, seg);
      NewSegmentIsNewest(start, pre, seg);
    }
  }

  lemma InOrderWithout(start: map<string, Archive>, segs: seq<Segment>, seg: Segment)
    requires InOrder(start, segs + [seg])
    ensures segs != [] ==> InOrder(start, segs[..|segs| - 1] + [seg])
    ensures InOrder(start, segs)
  {
    var all := segs + [seg];
    assert forall i :: 0 <= i < |segs| ==> all[i] == segs[i];
    assert all[|segs|] == seg;
  }

  /** Adding the newest to the newest so far, the newest of that are the newest of all. */
  lemma OneMoreArchive(before: map<string, Archive>, after: map<string, Archive>, all: map<string, Archive>,
                       limit: nat, stamp: string, a: Archive)
    requires stamp !in all && (forall x :: x in all ==> all[x].mtime <= a.mtime)
    requires (before == all || AreNewest(before, all, limit)) && AreNewest(after, before[stamp := a], limit)
    ensures AreNewest(after, all[stamp := a], limit)
  {
    OneMoreKey(before, stamp, a);
    OneMoreKey(all, stamp, a);
    var added, all' := before[stamp := a], all[stamp := a];
    forall v, k | v in all'.Keys - after.Keys && k in after ensures all'[v].mtime <= all'[k].mtime {
      assert k in added && after[k] == added[k] == all'[k];
      if v in added {
        assert v in added.Keys - after.Keys;
      } else {
        assert k != stamp ==> v in all.Keys - before.Keys && k in before;
      }
    }
  }

  lemma OneMoreKey<K, V>(m: map<K, V>, k: K, v: V)
    requires k !in m
    ensures |m[k := v].Keys| == |m.Keys| + 1
  {
    assert m[k := v].Keys == m.Keys + {k};
  }

  /** When stamps are new, the clock goes forward and archiving works, then from the first rotation on the
      archives are the newest of those there were at the start and all that were ever added. */
  lemma {:induction false} NewestOverRuns(cfg: Config, ss: seq<LogState>, cs: seq<Call>, fs: seq<Faults>)
    requires IsRun(cfg, ss, cs, fs) && AllArchivingWorks(fs)
    requires InOrder(ss[0].archives, Segments(cfg, ss, cs, fs))
    ensures NewestSoFar(ss[|cs|].archives, ss[0].archives, Segments(cfg, ss, cs, fs), cfg.maxLogFiles)
  {
    if cs != [] {
      var n := |cs| - 1;
      var s, c, f, segs := ss[n], cs[n], fs[n], Segments(cfg, ss[..n + 1], cs[..n], fs[..n]);
      var more := SegmentOf(cfg, s, c, f);
      if more == [] { assert segs + more == segs; } else { InOrderWithout(ss[0].archives, segs, more[0]); }
      NewestOverRuns(cfg, ss[..n + 1], cs[..n], fs[..n]);
      NewestStep(cfg, s, ss[n + 1], c, f, ss[0].archives, segs);
    }
  }

  /** The newest so far: before any rotation, simply what there was at the start. */
  ghost predicate NewestSoFar(archives: map<string, Archive>, start: map<string, Archive>, segs: seq<Segment>,
                              limit: nat)
  {
    if segs == [] then archives == start else AreNewest(archives, EverArchived(start, segs), limit)
  }

  lemma NewestStep(cfg: Config, s: LogState, s': LogState, c: Call, f: Faults, start: map<string, Archive>,
                   segs: seq<Segment>)
    requires Logs(cfg, s, s', c, f) && CleanupWorks(f) && f.compression.Compressed?
    requires NewestSoFar(s.archives, start, segs, cfg.maxLogFiles)
    requires InOrder(start, segs + SegmentOf(cfg, s, c, f))
    ensures NewestSoFar(s'.archives, start, segs + SegmentOf(cfg, s, c, f), cfg.maxLogFiles)
  {
    var more := SegmentOf(cfg, s, c, f);
    ArchivesStep(cfg, s, s', c, f);
    if more == [] {
      assert segs + more == segs;
    } else {
      CleanupHeals(ArchivesWith(s.archives, s.live, c.clock, f.compression), s'.archives, cfg.maxLogFiles, f);
      NewestRotation(s.archives, s'.archives, start, segs, more[0], cfg.maxLogFiles);
      assert more == [more[0]];
    }
  }

  lemma NewestRotation(before: map<string, Archive>, after: map<string, Archive>, start: map<string, Archive>,
                       segs: seq<Segment>, seg: Segment, limit: nat)
    requires NewestSoFar(before, start, segs, limit) && InOrder(start, segs + [seg])
    requires AreNewest(after, before[seg.stamp := Archive(seg.mtime, seg.content)], limit)
    ensures NewestSoFar(after, start, segs + [seg], limit)
  {
    assert (segs + [seg])[..|segs|] == segs;
    NewSegmentIsNewest(start, segs, seg);
    OneMoreArchive(before, after, EverArchived(start, segs), limit, seg.stamp, Archive(seg.mtime, seg.content));
  }
}
