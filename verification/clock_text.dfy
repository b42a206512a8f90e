/**
 * The text of the countdown label: Python's `{:02d}` formatting of minutes
 * and seconds joined by a colon, and a reader for that text, so that the
 * format can be shown to lose nothing.
 */
module ClockText {

  import opened Options

  predicate IsDigit(c: char) { '0' <= c <= '9' }

  predicate AllDigits(s: string) { forall i :: 0 <= i < |s| ==> IsDigit(s[i]) }

  function DigitChar(d: int): (c: char)
    requires 0 <= d < 10
    ensures IsDigit(c)
  {
    ('0' as int + d) as char
  }

  function DigitValue(c: char): (d: int)
    requires IsDigit(c)
    ensures 0 <= d < 10
  {
    c as int - '0' as int
  }

  /** The decimal numeral of `n`, most significant digit first. */
  function Decimal(n: nat): (s: string)
    ensures 1 <= |s|
    ensures AllDigits(s)
    ensures n < 10 <==> |s| == 1
    ensures n < 100 ==> |s| <= 2
    decreases n
  {
    if n < 10 then [DigitChar(n)] else Decimal(n / 10) + [DigitChar(n % 10)]
  }

  /** The number a string of decimal digits denotes. */
  function ValueOf(s: string): (n: nat)
    requires AllDigits(s)
    decreases |s|
  {
    if |s| == 0 then 0 else ValueOf(s[..|s| - 1]) * 10 + DigitValue(s[|s| - 1])
  }

  /** Reading a numeral back gives the number it was written from. */
  lemma {:induction false} DecimalRoundTrip(n: nat)
    ensures ValueOf(Decimal(n)) == n
    decreases n
  {
    if n >= 10 {
      var p := Decimal(n / 10);
      var s := p + [DigitChar(n % 10)];
      assert s[..|s| - 1] == p;
      DecimalRoundTrip(n / 10);
    }
  }

  /** `format(n, "02d")`: at least two digits, with a leading zero below ten. */
  function Pad2(n: nat): (s: string)
    ensures AllDigits(s)
    ensures 2 <= |s|
    ensures n < 100 ==> |s| == 2
    ensures ValueOf(s) == n
  {
    if n < 10 then
      var s := ['0', DigitChar(n)];
      assert s[..1] == ['0'];
      assert ValueOf(['0'][..0]) == 0;
      s
    else
      DecimalRoundTrip(n);
      Decimal(n)
  }

  /** The `MM:SS` text of the countdown. */
  function Clock(minutes: nat, seconds: nat): (t: string)
    ensures 5 <= |t|
    ensures minutes < 100 && seconds < 100 ==> |t| == 5 && t[2] == ':'
  {
    Pad2(minutes) + ":" + Pad2(seconds)
  }

  /** The index of the first colon at or after `from`, if any. */
  function FindColon(t: string, from: nat): (k: Option<nat>)
    requires from <= |t|
    ensures k.Some? ==> from <= k.value < |t| && t[k.value] == ':'
    ensures k.Some? ==> forall j :: from <= j < k.value ==> t[j] != ':'
    ensures k.None? ==> forall j :: from <= j < |t| ==> t[j] != ':'
    decreases |t| - from
  {
    if from == |t| then None
    else if t[from] == ':' then Some(from)
    else FindColon(t, from + 1)
  }

  /** Reads `MM:SS` text: two non-empty digit strings around the first colon. */
  function ParseClock(t: string): (r: Option<(nat, nat)>)
  {
    match FindColon(t, 0)
    case None => None
    case Some(k) =>
      var a := t[..k];
      var b := t[k + 1..];
      if 0 < |a| && 0 < |b| && AllDigits(a) && AllDigits(b) then Some((ValueOf(a), ValueOf(b)))
      else None
  }

  /** The countdown text reads back as the minutes and seconds it was made from. */
  lemma ClockRoundTrip(minutes: nat, seconds: nat)
    ensures ParseClock(Clock(minutes, seconds)) == Some((minutes, seconds))
  {
    var a := Pad2(minutes);
    var b := Pad2(seconds);
    var t := a + ":" + b;
    assert forall j :: 0 <= j < |a| ==> t[j] == a[j];
    assert t[|a|] == ':';
    var k := FindColon(t, 0);
    assert k == Some(|a|);
    assert t[..|a|] == a;
    assert t[|a| + 1..] == b;
  }

  /** Minutes below one hundred and seconds below sixty give exactly `MM:SS`. */
  lemma ClockShape(minutes: nat, seconds: nat)
    requires minutes < 100 && seconds < 60
    ensures var t := Clock(minutes, seconds);
            |t| == 5 && t[2] == ':' && AllDigits(t[..2]) && AllDigits(t[3..])
  {
    var t := Clock(minutes, seconds);
    assert t[..2] == Pad2(minutes);
    assert t[3..] == Pad2(seconds);
  }
}
