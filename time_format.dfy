/** Text rendering of the countdown: the `mm:ss` string shown on the timer
    display and the kill-count label.  JavaScript's `String(n)` on a
    non-negative integer is modelled by `NatToString`, `padStart` by
    `PadStart`, and `Math.floor(t / 60)` and `t % 60` by Dafny's `/` and `%`,
    which agree with them for the non-negative values the session holds. */
module TimeFormat {

  datatype Option<T> = None | Some(value: T)

  predicate IsDigit(c: char) {
    '0' <= c <= '9'
  }

  predicate AllDigits(s: string) {
    forall i :: 0 <= i < |s| ==> IsDigit(s[i])
  }

  function DigitChar(d: nat): (c: char)
    requires d < 10
    ensures IsDigit(c) && DigitValue(c) == d
  {
    ('0' as int + d) as char
  }

  function DigitValue(c: char): nat
    requires IsDigit(c)
  {
    c as int - '0' as int
  }

  /** The decimal numeral of `n`, most significant digit first, with no
      leading zero: what `String(n)` yields for a non-negative integer. */
  function NatToString(n: nat): (r: string)
    ensures AllDigits(r) && 1 <= |r|
    ensures (|r| == 1) == (n < 10)
    ensures r[0] == '0' ==> n == 0
    decreases n
  {
    if n < 10 then [DigitChar(n)] else NatToString(n / 10) + [DigitChar(n % 10)]
  }

  /** The number a string of decimal digits denotes (the empty string denotes 0). */
  function ValueOf(s: string): nat
    requires AllDigits(s)
  {
    if s == [] then 0 else 10 * ValueOf(s[..|s| - 1]) + DigitValue(s[|s| - 1])
  }

  /** `s.padStart(width, [fill])`: prepends copies of `fill` until the string is
      `width` long; a string already that long is returned unchanged. */
  function PadStart(s: string, width: nat, fill: char): (r: string)
    ensures |r| == if |s| < width then width else |s|
    ensures r[|r| - |s|..] == s
    ensures forall i :: 0 <= i < |r| - |s| ==> r[i] == fill
  {
    if |s| >= width then s else seq(width - |s|, _ => fill) + s
  }

  /** `s.padStart(2, "0")`. */
  function PadTwo(s: string): (r: string)
    ensures |r| == if |s| < 2 then 2 else |s|
    ensures r[|r| - |s|..] == s
  {
    PadStart(s, 2, '0')
  }

  /** The timer display text for `t` remaining seconds (script.js, updateTimerDisplay). */
  function FormatTime(t: nat): string {
    PadTwo(NatToString(t / 60)) + ":" + PadTwo(NatToString(t % 60))
  }

  /** Reads a displayed `mm:ss` text back: everything before the last three
      characters is the minutes, the last two the seconds. */
  function ParseTime(s: string): Option<nat> {
    if |s| < 5 || s[|s| - 3] != ':' then None
    else
      var mm, ss := s[..|s| - 3], s[|s| - 2..];
      if AllDigits(mm) && AllDigits(ss) && ValueOf(ss) < 60
      then Some(60 * ValueOf(mm) + ValueOf(ss))
      else None
  }

  const KillCountPrefix: string := "\U{1F52A} Kill Count: "

  /** The kill-count label text (script.js, updateKillCountDisplay). */
  function KillCountText(k: nat): string {
    KillCountPrefix + NatToString(k)
  }

  // ---------------------------------------------------------------------
  // Lemmas
  // ---------------------------------------------------------------------

  /** `ValueOf` inverts `NatToString`. */
  lemma {:induction false} NatToStringRoundTrip(n: nat)
    ensures ValueOf(NatToString(n)) == n
    decreases n
  {
    if n >= 10 {
      var r := NatToString(n);
      assert r[..|r| - 1] == NatToString(n / 10);
      NatToStringRoundTrip(n / 10);
    }
  }

  /** Two-digit numbers print as two characters, larger ones as more. */
  lemma {:induction false} NatToStringLength(n: nat)
    ensures n < 100 ==> |NatToString(n)| <= 2
    ensures n >= 100 ==> |NatToString(n)| >= 3
    decreases n
  {
    if n >= 10 {
      NatToStringLength(n / 10);
    }
  }

  lemma {:induction false} ZerosDenoteZero(z: string)
    requires forall i :: 0 <= i < |z| ==> z[i] == '0'
    ensures AllDigits(z) && ValueOf(z) == 0
    decreases |z|
  {
    if z != [] {
      ZerosDenoteZero(z[..|z| - 1]);
    }
  }

  /** Leading zeros do not change the number a digit string denotes. */
  lemma {:induction false} LeadingZeros(z: string, s: string)
    requires forall i :: 0 <= i < |z| ==> z[i] == '0'
    requires AllDigits(s)
    ensures AllDigits(z + s) && ValueOf(z + s) == ValueOf(s)
    decreases |s|
  {
    if s == [] {
      assert z + s == z;
      ZerosDenoteZero(z);
    } else {
      var t := z + s;
      assert t[..|t| - 1] == z + s[..|s| - 1];
      LeadingZeros(z, s[..|s| - 1]);
    }
  }

  /** Padding a numeral with zeros keeps its value and its digits. */
  lemma PadTwoValue(n: nat)
    ensures AllDigits(PadTwo(NatToString(n)))
    ensures ValueOf(PadTwo(NatToString(n))) == n
    ensures |PadTwo(NatToString(n))| == if n < 100 then 2 else |NatToString(n)|
  {
    var s := NatToString(n);
    var r := PadTwo(s);
    var z := r[..|r| - |s|];
    assert r == z + s;
    LeadingZeros(z, s);
    NatToStringRoundTrip(n);
    NatToStringLength(n);
  }

  /** In the reachable range (under 100 minutes, so in particular for every
      value up to the 3600-second game length) the display is exactly five
      characters: two minute digits, a colon, two second digits, whose values
      are `t / 60` and `t % 60`. */
  lemma FormatTimeShape(t: nat)
    requires t < 100 * 60
    ensures |FormatTime(t)| == 5 && FormatTime(t)[2] == ':'
    ensures AllDigits(FormatTime(t)[..2]) && AllDigits(FormatTime(t)[3..])
    ensures ValueOf(FormatTime(t)[..2]) == t / 60
    ensures ValueOf(FormatTime(t)[3..]) == t % 60 < 60
    ensures 60 * ValueOf(FormatTime(t)[..2]) + ValueOf(FormatTime(t)[3..]) == t
  {
    PadTwoValue(t / 60);
    PadTwoValue(t % 60);
    SplitJoined(PadTwo(NatToString(t / 60)), PadTwo(NatToString(t % 60)));
  }

  lemma SplitJoined(mm: string, ss: string)
    requires |mm| == 2 && |ss| == 2
    ensures |mm + ":" + ss| == 5 && (mm + ":" + ss)[2] == ':'
    ensures (mm + ":" + ss)[..2] == mm && (mm + ":" + ss)[3..] == ss
  {
  }

  /** `padStart` never truncates: from 100 minutes on, the minutes part grows
      beyond two characters instead of losing digits. */
  lemma FormatTimeWide(t: nat)
    requires t >= 100 * 60
    ensures |FormatTime(t)| > 5
  {
    PadTwoValue(t / 60);
    PadTwoValue(t % 60);
    NatToStringLength(t / 60);
  }

  /** A minutes part, a colon and a two-digit seconds part under 60 read back
      as their total in seconds. */
  lemma ParseJoined(mm: string, ss: string)
    requires AllDigits(mm) && 2 <= |mm|
    requires AllDigits(ss) && |ss| == 2 && ValueOf(ss) < 60
    ensures ParseTime(mm + ":" + ss) == Some(60 * ValueOf(mm) + ValueOf(ss))
  {
    var r := mm + ":" + ss;
    assert r[|r| - 3] == ':';
    assert r[..|r| - 3] == mm;
    assert r[|r| - 2..] == ss;
  }

  /** Every display text reads back as the number of seconds it shows. */
  lemma FormatTimeRoundTrip(t: nat)
    ensures ParseTime(FormatTime(t)) == Some(t)
  {
    PadTwoValue(t / 60);
    PadTwoValue(t % 60);
    ParseJoined(PadTwo(NatToString(t / 60)), PadTwo(NatToString(t % 60)));
  }

  /** Distinct remaining times are displayed differently. */
  lemma FormatTimeInjective(t: nat, u: nat)
    requires FormatTime(t) == FormatTime(u)
    ensures t == u
  {
    FormatTimeRoundTrip(t);
    FormatTimeRoundTrip(u);
  }

  /** The kill-count label is the fixed prefix followed by the decimal count. */
  lemma KillCountTextParses(k: nat)
    ensures |KillCountText(k)| > |KillCountPrefix|
    ensures KillCountText(k)[..|KillCountPrefix|] == KillCountPrefix
    ensures AllDigits(KillCountText(k)[|KillCountPrefix|..])
    ensures ValueOf(KillCountText(k)[|KillCountPrefix|..]) == k
  {
    var r := KillCountText(k);
    assert r[|KillCountPrefix|..] == NatToString(k);
    NatToStringRoundTrip(k);
  }
}
