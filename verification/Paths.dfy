/** Database file names, built in a buffer of 256 bytes. */
module Paths {
  import opened Messages
  import opened Numerals

  const BUFFER := 256

  /** %02d of a channel number. */
  function Pad2(c: nat): string { if c < 10 then "0" + Digits(c) else Digits(c) }

  /** What snprintf leaves in the buffer: at most one byte less than its size. */
  function Truncate(s: string): string { if |s| < BUFFER then s else s[..BUFFER - 1] }

  function DbPath(dir: string, channel: nat): string {
    Truncate(CStr(dir) + "/CHANNEL" + (Pad2(channel) + ".db"))
  }

  ghost predicate PathsDistinct(dir: string, channels: int) {
    forall a: nat, b: nat :: 1 <= a < b <= channels ==> DbPath(dir, a) != DbPath(dir, b)
  }

  /** Room the buffer leaves behind "/CHANNEL" for the number and the extension. */
  function Room(dir: string): int { BUFFER - 1 - |CStr(dir)| - |"/CHANNEL"| }

  function Cut(s: string, n: int): string {
    if n <= 0 then [] else if n <= |s| then s[..n] else s
  }

  lemma DbPathSplits(dir: string, c: nat)
    requires 0 <= Room(dir)
    ensures DbPath(dir, c) == CStr(dir) + "/CHANNEL" + Cut(Pad2(c) + ".db", Room(dir))
  {
    var prefix, tail := CStr(dir) + "/CHANNEL", Pad2(c) + ".db";
    if |prefix + tail| >= BUFFER {
      assert (prefix + tail)[..BUFFER - 1] == prefix + tail[..BUFFER - 1 - |prefix|];
    }
  }

  lemma SamePathIffSameTail(dir: string, a: nat, b: nat)
    ensures DbPath(dir, a) == DbPath(dir, b)
       <==> Cut(Pad2(a) + ".db", Room(dir)) == Cut(Pad2(b) + ".db", Room(dir))
  {
    var prefix := CStr(dir) + "/CHANNEL";
    if Room(dir) < 0 {
      assert (prefix + (Pad2(a) + ".db"))[..BUFFER - 1] == prefix[..BUFFER - 1];
      assert (prefix + (Pad2(b) + ".db"))[..BUFFER - 1] == prefix[..BUFFER - 1];
    } else {
      DbPathSplits(dir, a);
      DbPathSplits(dir, b);
      var ta, tb := Cut(Pad2(a) + ".db", Room(dir)), Cut(Pad2(b) + ".db", Room(dir));
      assert (prefix + ta)[|prefix|..] == ta && (prefix + tb)[|prefix|..] == tb;
    }
  }

  /** At least two digits, with the number's value. */
  lemma {:induction false} Pad2Value(c: nat)
    ensures AllDigits(Pad2(c)) && DigitsValue(Pad2(c)) == c
    ensures |Pad2(c)| == if c < 100 then 2 else |Digits(c)|
  {
    ValueOfDigits(c);
    if c < 10 {
      assert Pad2(c) == "0" + [DigitChar(c)];
      assert Pad2(c)[..1] == "0" && "0"[..0] == "";
    } else if c < 100 {
      assert Digits(c) == Digits(c / 10) + [DigitChar(c % 10)] && |Digits(c / 10)| == 1;
    }
  }

  /** The name of a channel's file, where the buffer has room for it. */
  lemma ShortPath(dir: string, c: nat)
    requires '\0' !in dir && |dir| + 8 + |Pad2(c)| + 3 <= 255
    ensures DbPath(dir, c) == dir + "/CHANNEL" + Pad2(c) + ".db"
  {
  }

  lemma Pad2Injective(a: nat, b: nat)
    requires Pad2(a) == Pad2(b)
    ensures a == b
  {
    ValueOfDigits(a);
    ValueOfDigits(b);
    assert a < 10 ==> Digits(a) == Pad2(a)[1..];
    assert b < 10 ==> Digits(b) == Pad2(b)[1..];
    if a < 10 <= b { LeadingDigit(b); }
    if b < 10 <= a { LeadingDigit(a); }
  }

  lemma {:induction false} LeadingDigit(n: nat)
    requires n > 0
    ensures Digits(n)[0] != '0'
  {
    if n >= 10 { LeadingDigit(n / 10); }
  }

  lemma Pad2Longer(a: nat, b: nat)
    requires a <= b
    ensures |Pad2(a)| <= |Pad2(b)|
  {
    LongerIsLarger(a, b);
    if a < 10 <= b { LongerIsLarger(10, b); }
  }

  /** With room for both numbers, the tails tell the channels apart. */
  lemma TailsDiffer(a: nat, b: nat, room: int)
    requires a != b && |Pad2(a)| <= |Pad2(b)| <= room
    ensures Cut(Pad2(a) + ".db", room) != Cut(Pad2(b) + ".db", room)
  {
    var ta, tb := Cut(Pad2(a) + ".db", room), Cut(Pad2(b) + ".db", room);
    assert ta[..|Pad2(a)|] == Pad2(a) && tb[..|Pad2(b)|] == Pad2(b);
    assert AllDigits(Pad2(b));
    assert |Pad2(a)| < |Pad2(b)| ==> ta[|Pad2(a)|] == '.' && tb[|Pad2(a)|] == Pad2(b)[|Pad2(a)|];
    if ta == tb { Pad2Injective(a, b); }
  }

  /** Some channel number up to `n` is written with exactly `len` digits. */
  lemma {:induction false} NumberOfLength(n: nat, len: nat) returns (c: nat)
    requires 1 <= len <= |Digits(n)| && 1 <= n
    ensures 1 <= c <= n && |Digits(c)| == len
  {
    if |Digits(n)| == len { c := n; } else { c := NumberOfLength(n / 10, len); }
  }

  /** Without room for the longest number, two channels share a tail. */
  lemma TailsCollide(channels: nat, room: int) returns (a: nat, b: nat)
    requires 2 <= channels && room < |Pad2(channels)|
    ensures 1 <= a < b <= channels
    ensures Cut(Pad2(a) + ".db", room) == Cut(Pad2(b) + ".db", room)
  {
    if room <= 1 {
      a, b := 1, 2;
      assert Pad2(1)[0] == '0' && Pad2(2)[0] == '0';
      assert Cut(Pad2(1) + ".db", room) == Cut(Pad2(2) + ".db", room);
    } else {
      b := NumberOfLength(channels, room + 1);
      a := b / 10;
      assert Digits(b)[..room] == Digits(a);
      assert |Digits(a)| >= 2;
      assert (Pad2(b) + ".db")[..room] == Digits(a) == (Pad2(a) + ".db")[..room];
    }
  }

  /** Each channel has a file of its own exactly when the buffer holds the longest channel number. */
  lemma PathsDistinctIff(dir: string, channels: nat)
    ensures PathsDistinct(dir, channels) <==> channels <= 1 || |CStr(dir)| + 8 + |Pad2(channels)| <= 255
  {
    if channels >= 2 {
      if |Pad2(channels)| <= Room(dir) {
        forall a: nat, b: nat | 1 <= a < b <= channels ensures DbPath(dir, a) != DbPath(dir, b) {
          Pad2Longer(a, b);
          Pad2Longer(b, channels);
          TailsDiffer(a, b, Room(dir));
          SamePathIffSameTail(dir, a, b);
        }
      } else {
        var a, b := TailsCollide(channels, Room(dir));
        SamePathIffSameTail(dir, a, b);
      }
    }
  }
}
