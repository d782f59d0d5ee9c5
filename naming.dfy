/**
 * The names of synthesised speech files and the disposal rule that decides,
 * after a file has been played, whether it is removed.
 */
module Naming {

  // ---------------------------------------------------------------------
  // Decimal rendering of a ticket, as `str(int)` prints a non-negative int

  predicate IsDigit(c: char) {
    '0' <= c <= '9'
  }

  function DigitChar(d: nat): (c: char)
    requires d < 10
    ensures IsDigit(c)
  {
    ('0' as int + d) as char
  }

  function DigitValue(c: char): nat
    requires IsDigit(c)
  {
    (c as int - '0' as int) as nat
  }

  /** The decimal digits of `n`, most significant first, without leading zeros. */
  function NatToString(n: nat): (s: string)
    ensures |s| > 0
    ensures forall k :: 0 <= k < |s| ==> IsDigit(s[k])
    ensures |s| > 1 ==> s[0] != '0'
    decreases n
  {
    if n < 10 then [DigitChar(n)]
    else NatToString(n / 10) + [DigitChar(n % 10)]
  }

  /** Reads a string of decimal digits back as a number. */
  function ParseNat(s: string): nat
    requires forall k :: 0 <= k < |s| ==> IsDigit(s[k])
    decreases |s|
  {
    if s == [] then 0
    else ParseNat(s[..|s| - 1]) * 10 + DigitValue(s[|s| - 1])
  }

  lemma {:induction false} ParseNatToString(n: nat)
    ensures ParseNat(NatToString(n)) == n
    decreases n
  {
    var s := NatToString(n);
    if n < 10 {
      assert s[..0] == [];
    } else {
      ParseNatToString(n / 10);
      assert s[..|s| - 1] == NatToString(n / 10);
    }
  }

  /** Distinct tickets are rendered as distinct strings. */
  lemma NatToStringInjective(n: nat, m: nat)
    requires NatToString(n) == NatToString(m)
    ensures n == m
  {
    ParseNatToString(n);
    ParseNatToString(m);
  }

  // ---------------------------------------------------------------------
  // Substring test, as Python's `sub in s` on strings

  /** `p` occurs in `s` starting at index `i`. */
  ghost predicate OccursAt(s: string, p: string, i: int) {
    0 <= i && i + |p| <= |s| && s[i..i + |p|] == p
  }

  function Contains(s: string, p: string): bool
    decreases |s|
  {
    if |p| > |s| then false
    else if s[..|p|] == p then true
    else Contains(s[1..], p)
  }

  /** The recursive test agrees with the definition by occurrence, both ways. */
  lemma {:induction false} ContainsIff(s: string, p: string)
    ensures Contains(s, p) <==> exists i :: OccursAt(s, p, i)
    decreases |s|
  {
    if |p| <= |s| {
      if s[..|p|] == p {
        assert OccursAt(s, p, 0);
      } else {
        ContainsIff(s[1..], p);
        if Contains(s[1..], p) {
          var i :| OccursAt(s[1..], p, i);
          assert s[i + 1..i + 1 + |p|] == s[1..][i..i + |p|];
          assert OccursAt(s, p, i + 1);
        }
        if exists i :: OccursAt(s, p, i) {
          var i :| OccursAt(s, p, i);
          assert i != 0;
          assert s[1..][i - 1..i - 1 + |p|] == s[i..i + |p|];
          assert OccursAt(s[1..], p, i - 1);
        }
      }
    }
  }

  // ---------------------------------------------------------------------
  // File names and disposal

  /** The name `speech_<timestamp>_<ticket>.mp3` of a synthesised file. */
  function SpeechFileName(timestamp: string, ticket: nat): (name: string)
    ensures |name| == 12 + |timestamp| + |NatToString(ticket)|
    ensures name[..7] == "speech_" && name[|name| - 4..] == ".mp3"
    ensures name[7..7 + |timestamp|] == timestamp && name[7 + |timestamp|] == '_'
    ensures name[8 + |timestamp|..|name| - 4] == NatToString(ticket)
  {
    "speech_" + timestamp + "_" + NatToString(ticket) + ".mp3"
  }

  /** A played file is removed only if its name contains `speech`. */
  predicate IsDisposable(fileName: string)
    ensures IsDisposable(fileName) <==> exists i :: OccursAt(fileName, "speech", i)
  {
    ContainsIff(fileName, "speech");
    Contains(fileName, "speech")
  }

  /** What playing one file does: whether it sounded and whether it was removed. */
  datatype PlayResult = PlayResult(played: bool, deleted: bool)

  /**
   * Playing a file outside the ordering gate: the file sounds only if it
   * exists, and is then removed only if it is disposable.
   */
  function PlayAudioFile(fileName: string, fileExists: bool): (r: PlayResult)
    ensures r.played <==> fileExists
    ensures r.deleted <==> fileExists && IsDisposable(fileName)
    ensures r.deleted ==> r.played
  {
    if fileExists then PlayResult(true, IsDisposable(fileName))
    else PlayResult(false, false)
  }

  /** Every synthesised file is removed once it has been played. */
  lemma SpeechFilesAreDisposable(timestamp: string, ticket: nat)
    ensures IsDisposable(SpeechFileName(timestamp, ticket))
    ensures PlayAudioFile(SpeechFileName(timestamp, ticket), true) == PlayResult(true, true)
  {
    var name := SpeechFileName(timestamp, ticket);
    assert name[..|"speech"|] == "speech";
  }

  /** A file whose name has no `s` cannot contain `speech`. */
  lemma NoSpeechWithoutS(s: string)
    requires forall k :: 0 <= k < |s| ==> s[k] != 's'
    ensures !IsDisposable(s)
  {
    ContainsIff(s, "speech");
    forall i ensures !OccursAt(s, "speech", i) {
      if 0 <= i && i + 6 <= |s| {
        assert s[i..i + 6][0] == s[i] != 's';
      }
    }
  }

  /** The notification sound is played but kept. */
  lemma NotificationIsKept()
    ensures !IsDisposable("notification.wav")
    ensures PlayAudioFile("notification.wav", true) == PlayResult(true, false)
  {
    NoSpeechWithoutS("notification.wav");
  }

  /**
   * Names are unique per (timestamp, ticket) among timestamps of one width
   * (the clock's format has a fixed width).
   */
  lemma SpeechFileNameUnique(a: string, t: nat, b: string, u: nat)
    requires |a| == |b|
    requires SpeechFileName(a, t) == SpeechFileName(b, u)
    ensures a == b && t == u
  {
    var x := SpeechFileName(a, t);
    var y := SpeechFileName(b, u);
    assert a == x[7..7 + |a|];
    assert b == y[7..7 + |b|];
    var ta := NatToString(t);
    var tb := NatToString(u);
    assert x == ("speech_" + a + "_") + ta + ".mp3";
    assert y == ("speech_" + b + "_") + tb + ".mp3";
    assert |ta| == |tb|;
    assert ta == x[8 + |a|..|x| - 4];
    assert tb == y[8 + |b|..|y| - 4];
    NatToStringInjective(t, u);
  }
}
