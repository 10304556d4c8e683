/** The digital readout of `TimerTextElement.update` (index.js:58-66): the
    signed time left between two instants, given in milliseconds since the
    epoch, rendered as hours, minutes and seconds. */
module Countdown {
  import opened Wrappers
  import opened Decimal

  /** `Math.round(deltaMs / 1000)`. `Math.round(x)` is `floor(x + 1/2)`, so a
      half second is rounded toward positive infinity; for an integral
      `deltaMs` this is `floor((deltaMs + 500) / 1000)`. The result is the
      nearest whole second, ties going up. */
  function RoundedSeconds(deltaMs: int): (t: int)
    ensures 1000 * t - 500 <= deltaMs < 1000 * t + 500
  {
    (deltaMs + 500) / 1000
  }

  function Abs(x: int): (a: nat)
    ensures a == x || a == -x
  {
    if x < 0 then -x else x
  }

  function HoursOf(a: nat): nat { a / 3600 }
  function MinutesOf(a: nat): nat { a / 60 % 60 }
  function SecondsOf(a: nat): nat { a % 60 }

  /** `n.toString().padStart(2, "0")`. */
  function Pad2(n: nat): string {
    PadStart(NatToString(n), 2, '0')
  }

  /** The unsigned "HH:MM:SS" part of the readout for `a` seconds. */
  function Clock(a: nat): string {
    Pad2(HoursOf(a)) + ":" + Pad2(MinutesOf(a)) + ":" + Pad2(SecondsOf(a))
  }

  /** The text the readout shows for the current and the target instant. */
  function Format(currentMs: int, targetMs: int): string {
    var timeLeft := RoundedSeconds(targetMs - currentMs);
    var sign := if timeLeft >= 0 then "" else "-";
    sign + Clock(Abs(timeLeft))
  }

  /** The three colon-separated parts of "H:MM:SS", hours of any width. */
  function ClockParts(s: string): Option<(string, string, string)> {
    if |s| < 7 || s[|s| - 6] != ':' || s[|s| - 3] != ':' then None
    else Some((s[..|s| - 6], s[|s| - 5..|s| - 3], s[|s| - 2..]))
  }

  /** The number of seconds that three digit fields denote, or None when a
      field is not all digits or the minutes or seconds reach 60. */
  function ClockValue(hs: string, ms: string, ss: string): Option<nat> {
    if !(AllDigits(hs) && AllDigits(ms) && AllDigits(ss)) then None
    else
      var h, m, sec := ParseDigits(hs), ParseDigits(ms), ParseDigits(ss);
      if m < 60 && sec < 60 then Some(h * 3600 + m * 60 + sec) else None
  }

  function ParseClock(s: string): Option<nat> {
    var parts := ClockParts(s);
    if parts.None? then None else ClockValue(parts.value.0, parts.value.1, parts.value.2)
  }

  /** A reader for the readout's format: an optional '-', a run of one or
      more hour digits, then ":MM:SS" with minutes and seconds below 60. It
      gives back the signed number of seconds that the text denotes. */
  function ParseCountdown(s: string): Option<int> {
    if |s| > 0 && s[0] == '-' then
      match ParseClock(s[1..])
      case Some(a) => if a > 0 then Some(0 - a) else None
      case None => None
    else ParseClock(s)
  }

  /** Hours, minutes and seconds decompose the magnitude exactly. */
  lemma Decomposition(a: nat)
    ensures HoursOf(a) * 3600 + MinutesOf(a) * 60 + SecondsOf(a) == a
    ensures MinutesOf(a) < 60 && SecondsOf(a) < 60
  {
    assert a == a / 60 * 60 + a % 60;
    assert a / 60 == a / 60 / 60 * 60 + a / 60 % 60;
    assert a / 60 / 60 == a / 3600;
  }

  /** Each field is at least two digits; a single digit gets exactly one
      leading '0'; a wider number (hours of 100 or more) is printed in full. */
  lemma Pad2Shape(n: nat)
    ensures |Pad2(n)| >= 2 && AllDigits(Pad2(n))
    ensures n < 10 ==> Pad2(n) == ['0', DigitChar(n)]
    ensures n >= 10 ==> Pad2(n) == NatToString(n)
  {
    NatToStringShape(n);
    if n < 10 {
      assert Pad2(n) == "0" + NatToString(n);
    }
  }

  /** A field reads back as its value; below 100 it is exactly two digits. */
  lemma Pad2Value(n: nat)
    ensures |Pad2(n)| >= 2 && AllDigits(Pad2(n)) && ParseDigits(Pad2(n)) == n
    ensures n < 100 ==> |Pad2(n)| == 2
  {
    ParseNatToString(n);
    if n < 10 {
      ParseDigitsLeadingZero(NatToString(n));
      assert Pad2(n) == "0" + NatToString(n);
    } else if n < 100 {
      assert NatToString(n) == NatToString(n / 10) + [DigitChar(n % 10)];
    }
  }

  /** The readout starts with '-' exactly when the rounded number of seconds
      is negative; otherwise it starts with a digit and carries no sign. */
  lemma FormatSign(currentMs: int, targetMs: int)
    ensures |Format(currentMs, targetMs)| >= 8
    ensures var r := Format(currentMs, targetMs);
      (r[0] == '-' <==> RoundedSeconds(targetMs - currentMs) < 0)
      && (RoundedSeconds(targetMs - currentMs) >= 0 ==> IsDigit(r[0]))
  {
    ClockLeadsWithDigit(Abs(RoundedSeconds(targetMs - currentMs)));
  }

  /** `ParseClock` takes apart a text built from three digit fields. */
  lemma ClockPartsOf(h: string, m: string, s: string)
    requires |h| >= 1 && |m| == 2 && |s| == 2 && ':' !in m
    ensures ClockParts(h + ":" + m + ":" + s) == Some((h, m, s))
  {
    var clock := h + ":" + m + ":" + s;
    var n := |clock|;
    assert clock[n - 6] == ':' && clock[n - 3] == ':';
    assert clock[..n - 6] == h;
    assert clock[n - 5..n - 3] == m;
    assert clock[n - 2..] == s;
  }

  lemma ParseClockFields(c: string, h: string, m: string, s: string)
    requires ClockParts(c) == Some((h, m, s))
    ensures ParseClock(c) == ClockValue(h, m, s)
  {
  }

  lemma ClockValueOfDigits(h: string, m: string, s: string)
    requires AllDigits(h) && AllDigits(m) && AllDigits(s)
    requires ParseDigits(m) < 60 && ParseDigits(s) < 60
    ensures ClockValue(h, m, s) == Some(ParseDigits(h) * 3600 + ParseDigits(m) * 60 + ParseDigits(s))
  {
  }

  lemma NoColonInDigits(m: string)
    requires AllDigits(m)
    ensures ':' !in m
  {
  }

  /** The unsigned part reads back as the number of seconds it was made from. */
  lemma ClockRoundTrip(a: nat)
    ensures ParseClock(Clock(a)) == Some(a)
  {
    var h, m, sec := HoursOf(a), MinutesOf(a), SecondsOf(a);
    Decomposition(a);
    Pad2Value(h);
    Pad2Value(m);
    Pad2Value(sec);
    NoColonInDigits(Pad2(m));
    ClockPartsOf(Pad2(h), Pad2(m), Pad2(sec));
    ParseClockFields(Clock(a), Pad2(h), Pad2(m), Pad2(sec));
    ClockValueOfDigits(Pad2(h), Pad2(m), Pad2(sec));
  }

  /** A '-' in front of a clock text is read as a negation. */
  lemma ParseSignedClock(clock: string, a: nat)
    requires |clock| > 0 && clock[0] != '-' && ParseClock(clock) == Some(a)
    ensures ParseCountdown(clock) == Some(a)
    ensures a > 0 ==> ParseCountdown("-" + clock) == Some(0 - a)
  {
    assert ("-" + clock)[1..] == clock;
  }

  lemma ClockLeadsWithDigit(a: nat)
    ensures |Clock(a)| >= 8 && IsDigit(Clock(a)[0])
  {
    Pad2Shape(HoursOf(a));
    Pad2Shape(MinutesOf(a));
    Pad2Shape(SecondsOf(a));
  }

  /** Reading the readout back gives the rounded signed number of seconds
      left: the sign, the hours (never truncated) and the two-digit minutes
      and seconds together lose nothing. */
  lemma FormatRoundTrip(currentMs: int, targetMs: int)
    ensures ParseCountdown(Format(currentMs, targetMs)) == Some(RoundedSeconds(targetMs - currentMs))
  {
    var t := RoundedSeconds(targetMs - currentMs);
    var clock := Clock(Abs(t));
    ClockRoundTrip(Abs(t));
    ClockLeadsWithDigit(Abs(t));
    ParseSignedClock(clock, Abs(t));
    if t >= 0 {
      assert Format(currentMs, targetMs) == clock;
    } else {
      assert Format(currentMs, targetMs) == "-" + clock;
    }
  }

  /** Equal instants show zero. */
  lemma FormatEqualInstants(nowMs: int)
    ensures Format(nowMs, nowMs) == "00:00:00"
  {
    assert RoundedSeconds(nowMs - nowMs) == 0;
    ClockOfSmall(0);
  }

  /** A +1.5 s difference rounds up to two seconds, and a -1.5 s difference
      rounds up too, to minus one second. */
  lemma FormatHalfSecond(nowMs: int)
    ensures Format(nowMs, nowMs + 1500) == "00:00:02"
    ensures Format(nowMs + 1500, nowMs) == "-00:00:01"
  {
    assert RoundedSeconds(nowMs + 1500 - nowMs) == 2;
    assert RoundedSeconds(nowMs - (nowMs + 1500)) == -1;
    ClockOfSmall(1);
    ClockOfSmall(2);
  }

  lemma ClockOfSmall(a: nat)
    requires a < 10
    ensures Clock(a) == "00:00:0" + [DigitChar(a)]
  {
    Pad2Shape(0);
    Pad2Shape(a);
    assert HoursOf(a) == 0 && MinutesOf(a) == 0 && SecondsOf(a) == a;
  }

  /** A negative zero is never shown: "-00:00:00" is not a possible readout. */
  lemma NoNegativeZero(currentMs: int, targetMs: int)
    ensures Format(currentMs, targetMs) != "-00:00:00"
  {
    FormatRoundTrip(currentMs, targetMs);
    ClockOfSmall(0);
    ClockRoundTrip(0);
    assert "-00:00:00"[1..] == Clock(0);
  }

  /** Swapping the two instants only flips the sign, unless the difference
      lies exactly on a half second, where `Math.round` rounds both ways up. */
  lemma FormatSwap(currentMs: int, targetMs: int)
    requires (targetMs - currentMs) % 1000 != 500
    ensures RoundedSeconds(currentMs - targetMs) == -RoundedSeconds(targetMs - currentMs)
    ensures RoundedSeconds(targetMs - currentMs) > 0 ==>
      Format(targetMs, currentMs) == "-" + Format(currentMs, targetMs)
  {
    var d := targetMs - currentMs;
    var q, r := (d + 500) / 1000, (d + 500) % 1000;
    assert d + 500 == 1000 * q + r;
    assert r != 0;
    assert currentMs - targetMs + 500 == 1000 * (0 - q) + (1000 - r);
    assert RoundedSeconds(currentMs - targetMs) == 0 - q;
  }
}
