/** What day names are as numbers: which names are days, which of two days is earlier, and what that says
    about retention and lookup. */
module Calendar {
  import opened Messages
  import opened Order
  import opened Numerals
  import opened Tables
  import opened Retention
  import opened Lookup
  import opened Channels
  import opened RoundTrip

  function DigitValue(c: char): int { c as int - '0' as int }

  // ----- order -----

  lemma {:induction false} LessAppend(a: string, x: char, b: string, y: char)
    requires |a| == |b|
    ensures Less(a + [x], b + [y]) <==> Less(a, b) || (a == b && x < y)
    decreases a
  {
    if a != [] {
      assert (a + [x])[1..] == a[1..] + [x] && (b + [y])[1..] == b[1..] + [y];
      assert a == [a[0]] + a[1..] && b == [b[0]] + b[1..];
      LessAppend(a[1..], x, b[1..], y);
    }
  }

  /** Numerals of the same length are ordered as their values. */
  lemma {:induction false} LessIsSmaller(a: string, b: string)
    requires |a| == |b| && AllDigits(a) && AllDigits(b)
    ensures Less(a, b) <==> DigitsValue(a) < DigitsValue(b)
    ensures a == b <==> DigitsValue(a) == DigitsValue(b)
  {
    if a != [] {
      var n := |a| - 1;
      LessIsSmaller(a[..n], b[..n]);
      LessAppend(a[..n], a[n], b[..n], b[n]);
      assert a == a[..n] + [a[n]] && b == b[..n] + [b[n]];
      assert IsDigit(a[n]) && IsDigit(b[n]);
    }
  }

  function DayValue(name: string): int
    requires IsDayName(name)
  {
    assert AllDigits(name);
    DigitsValue(name)
  }

  /** The earlier of two days has the smaller name, and the other way round. */
  lemma EarlierIffLess(a: string, b: string)
    requires IsDayName(a) && IsDayName(b)
    ensures Less(a, b) <==> DayValue(a) < DayValue(b)
  {
    LessIsSmaller(a, b);
  }

  // ----- which names are days -----

  /** Cutting off a digit. */
  lemma CutDigit(s: string, k: nat)
    requires 1 <= k <= |s| && AllDigits(s)
    ensures AllDigits(s[..k]) && AllDigits(s[..k - 1])
    ensures DigitsValue(s[..k]) / 10 == DigitsValue(s[..k - 1])
    ensures DigitsValue(s[..k]) % 10 == DigitValue(s[k - 1])
  {
    assert IsDigit(s[k - 1]);
    assert s[..k][..k - 1] == s[..k - 1];
  }

  lemma Thousands(n: nat)
    ensures n / 10 / 10 / 10 == n / 1000
    ensures n / 1000 / 10 / 10 / 10 == n / 1000000
  {
  }

  lemma EightDigits(s: string)
    requires |s| == 8 && AllDigits(s)
    ensures DigitsValue(s) / 10 % 10 == DigitValue(s[6])
    ensures DigitsValue(s) / 1000 % 10 == DigitValue(s[4])
    ensures DigitsValue(s) / 1000000 == 10 * DigitValue(s[0]) + DigitValue(s[1])
  {
    assert s[..8] == s;
    Thousands(DigitsValue(s));
    CutDigit(s, 8);
    CutDigit(s, 7);
    CutDigit(s, 6);
    CutDigit(s, 5);
    CutDigit(s, 4);
    CutDigit(s, 3);
    TwoDigits(s);
  }

  lemma TwoDigits(s: string)
    requires 2 <= |s| && AllDigits(s)
    ensures AllDigits(s[..2]) && DigitsValue(s[..2]) == 10 * DigitValue(s[0]) + DigitValue(s[1])
  {
    CutDigit(s, 2);
    CutDigit(s, 1);
    assert s[..0] == [];
  }

  /** A day name is a number of eight digits that starts with 20, whose month does not pass 19 and whose day
      does not pass 39. */
  lemma IsDayNameIff(s: string)
    ensures IsDayName(s) <==>
              && |s| == 8 && AllDigits(s) && DigitsValue(s) / 1000000 == 20
              && DigitsValue(s) / 1000 % 10 <= 1 && DigitsValue(s) / 10 % 10 <= 3
  {
    if |s| == 8 && AllDigits(s) {
      EightDigits(s);
      assert forall i :: 0 <= i < 8 ==> IsDigit(s[i]);
    }
    if IsDayName(s) { assert AllDigits(s); }
  }

  predicate IsDate(year: int, month: int, day: int) {
    2000 <= year <= 2099 && 1 <= month <= 12 && 1 <= day <= 31
  }

  /** YYYYMMDD. */
  function DayNumber(year: int, month: int, day: int): int { 10000 * year + 100 * month + day }

  lemma OneDigitMore(n: nat)
    requires 10 <= n
    ensures |Digits(n)| == |Digits(n / 10)| + 1
  {
  }

  lemma EightLong(n: nat)
    requires 10000000 <= n < 100000000
    ensures |Digits(n)| == 8
  {
    FourLong(n / 10000);
    var n7 := n / 10;
    var n6 := n7 / 10;
    var n5 := n6 / 10;
    assert n5 / 10 == n / 10000;
    OneDigitMore(n);
    OneDigitMore(n7);
    OneDigitMore(n6);
    OneDigitMore(n5);
  }

  lemma FourLong(n: nat)
    requires 1000 <= n < 10000
    ensures |Digits(n)| == 4
  {
    var n3 := n / 10;
    var n2 := n3 / 10;
    OneDigitMore(n);
    OneDigitMore(n3);
    OneDigitMore(n2);
  }

  /** Every date of the century is a day name. */
  lemma DatesAreDayNames(year: int, month: int, day: int)
    requires IsDate(year, month, day)
    ensures IsDayName(Digits(DayNumber(year, month, day)))
    ensures |Digits(DayNumber(year, month, day))| == 8
  {
    var n := DayNumber(year, month, day);
    EightLong(n);
    ValueOfDigits(n);
    DayNumberParts(year, month, day);
    IsDayNameIff(Digits(n));
  }

  lemma DayNumberParts(year: int, month: int, day: int)
    requires IsDate(year, month, day)
    ensures DayNumber(year, month, day) / 1000000 == 20
    ensures DayNumber(year, month, day) / 1000 % 10 <= 1
    ensures DayNumber(year, month, day) / 10 % 10 <= 3
  {
    var n := DayNumber(year, month, day);
    Tens(month);
    Tens(day);
    assert 2000 * 10000 <= n < 2100 * 10000;
    QuotientBy1000(n, 10 * year + month / 10, 100 * (month % 10) + day);
    LastOf(year, month / 10);
    QuotientBy10(n, 10 * (100 * year + month) + day / 10, day % 10);
    LastOf(100 * year + month, day / 10);
  }

  lemma Tens(n: int)
    requires 1 <= n < 40
    ensures n == 10 * (n / 10) + n % 10 && 0 <= n % 10 <= 9 && 0 <= n / 10 <= 3
    ensures n <= 12 ==> n / 10 <= 1
  {
  }

  lemma QuotientBy1000(n: int, q: int, r: int)
    requires 0 <= r < 1000 && n == 1000 * q + r
    ensures n / 1000 == q
  {
  }

  lemma QuotientBy10(n: int, q: int, r: int)
    requires 0 <= r < 10 && n == 10 * q + r
    ensures n / 10 == q
  {
  }

  lemma LastOf(n: int, d: int)
    requires 0 <= d <= 9
    ensures (10 * n + d) % 10 == d
  {
  }

  // ----- retention, by number -----

  /** No day that a history evicted is later than one it kept. */
  lemma EvictedDaysAreEarlier(t0: Tables, limit: nat, ms: seq<Msg>, evicted: string, kept: string)
    requires !(Dates(ms) <= t0.Keys)
    requires evicted in DayNames(t0.Keys + Dates(ms)) - AfterWrites(t0, limit, ms).Keys
    requires kept in DayNames(AfterWrites(t0, limit, ms).Keys)
    ensures DayValue(evicted) < DayValue(kept)
  {
    RetentionIsTopOfHistory(t0, limit, ms);
    EvictedAreOlder(t0.Keys + Dates(ms), limit, evicted, kept);
    EarlierIffLess(evicted, kept);
  }

  /** Nor is a day that a cleanup without failures drops. */
  lemma DroppedDaysAreEarlier(t: Tables, limit: nat, dropped: string, kept: string)
    requires dropped in t && dropped !in Cleaned(t, limit, NO_FAULTS)
    requires kept in Cleaned(t, limit, NO_FAULTS) && IsDayName(kept)
    ensures IsDayName(dropped) && DayValue(dropped) < DayValue(kept)
  {
    CleanupIsSafe(t, limit, NO_FAULTS, dropped);
    CleanupHeals(t, limit, NO_FAULTS);
    EvictedAreOlder(t.Keys, limit, dropped, kept);
    EarlierIffLess(dropped, kept);
  }

  // ----- the day of a message -----

  /** The message was sent on this date. */
  predicate SentOn(m: Msg, year: int, month: int, day: int) {
    IsDate(year, month, day) && Digits(DayNumber(year, month, day)) <= m.timestamp
  }

  lemma SentOnIsItsDay(m: Msg, year: int, month: int, day: int)
    requires SentOn(m, year, month, day)
    ensures DateOf(m.timestamp) == Digits(DayNumber(year, month, day)) && IsDayName(DateOf(m.timestamp))
  {
    DatesAreDayNames(year, month, day);
  }

  /** Any timestamp that is long enough names a table, day or not, and the message is written to it, if no
      limit keeps that out. */
  lemma LongTimestampIsWritten(t: Tables, limit: int, m: Msg)
    requires 8 <= |m.timestamp|
    requires limit < 0 || !IsDayName(m.timestamp[..8]) || |DayNames(t.Keys)| < limit
    ensures WriteOk(t, limit, m, NO_FAULTS) && m.timestamp[..8] in Written(t, limit, m, NO_FAULTS)
    ensures Written(t, limit, m, NO_FAULTS)[m.timestamp[..8]] == RowsIn(t, m.timestamp[..8]) + RowsOf(m)
  {
    var name := m.timestamp[..8];
    if name !in t {
      EnsuredKeys(t, limit, name);
      NotEvicted(t.Keys, limit, name);
    }
    WrittenRows(t, limit, m, name);
  }

  lemma NotEvicted(names: set<string>, limit: int, name: string)
    requires limit < 0 || !IsDayName(name) || |DayNames(names)| < limit
    ensures name in Retained(names + {name}, limit)
  {
    LessTotal(name, name);
    assert Newer(names + {name}, name) <= DayNames(names);
    SubsetSize(Newer(names + {name}, name), DayNames(names));
  }

  /** From a database with room for one more day: a message sent on any date is written and found again. */
  lemma DateIsFound(t: Tables, limit: int, m: Msg, year: int, month: int, day: int,
                    before: Msg, found: bool, out: Msg)
    requires SentOn(m, year, month, day) && m.registerMap != []
    requires limit < 0 || |DayNames(t.Keys)| < limit
    requires forall d :: d in t && IsDayName(d) ==> RowsWithId(t[d], m.id) == []
    requires Selects(Written(t, limit, m, NO_FAULTS), m.channel, m.id, NO_FAULTS, before, found, out)
    ensures WriteOk(t, limit, m, NO_FAULTS)
    ensures found && out == Stored(m)
  {
    SentOnIsItsDay(m, year, month, day);
    RoomForOneMore(t, limit, m);
    WriteThenSelect(t, limit, m, [], before, found, out);
  }

  lemma RoomForOneMore(t: Tables, limit: int, m: Msg)
    requires IsDayName(DateOf(m.timestamp)) && m.registerMap != []
    requires limit < 0 || |DayNames(t.Keys)| < limit
    ensures WriteOk(t, limit, m, NO_FAULTS) && DateOf(m.timestamp) in Written(t, limit, m, NO_FAULTS)
  {
    SubsetSize(Newer(t.Keys, DateOf(m.timestamp)), DayNames(t.Keys));
    WriteFailsIffEvicted(t, limit, m);
    SuccessIsWhole(t, limit, m, NO_FAULTS);
  }

  /** Whatever fails, after a reported success: a message sent on any date is found again. */
  lemma DateIsFoundAgain(t: Tables, limit: int, m: Msg, year: int, month: int, day: int, f: Faults,
                         calls: seq<Call>, g: Faults, before: Msg, found: bool, out: Msg)
    requires SentOn(m, year, month, day) && m.registerMap != [] && WriteOk(t, limit, m, f)
    requires var name := Digits(DayNumber(year, month, day));
             var final := AfterCalls(Written(t, limit, m, f), limit, calls);
             && PresentThroughout(Written(t, limit, m, f), limit, calls, name)
             && OnlyOneAnswers(t, final, m, calls)
             && name in Listing(final.Keys, g) && name !in g.selectFails
             && Selects(final, m.channel, m.id, g, before, found, out)
    ensures found && out == Stored(m)
  {
    SentOnIsItsDay(m, year, month, day);
    SuccessThenSelect(t, limit, m, f, calls, g, before, found, out);
  }
}
