/**
 The clock text of a bus event: the zero-padded `HH:mm:ss.mmm` the printer writes and the
 pattern `H?H:mm[:ss][.m{1,3}]` the sort key reads back.
 */
module Clock {
  import opened Sequences

  const MS_PER_DAY: int := 86_400_000

  predicate IsDigit(c: char) { '0' <= c <= '9' }

  predicate AllDigits(s: string) { forall c :: c in s ==> IsDigit(c) }

  function DigitValue(c: char): nat
    requires IsDigit(c)
  {
    c as int - '0' as int
  }

  function Number(s: string): nat
    requires AllDigits(s)
  {
    if s == [] then 0 else 10 * Number(s[..|s| - 1]) + DigitValue(s[|s| - 1])
  }

  function DigitRun(s: string): (n: nat)
    ensures n <= |s| && AllDigits(s[..n])
    ensures n < |s| ==> !IsDigit(s[n])
  {
    if s == [] || !IsDigit(s[0]) then 0
    else
      assert s[..1 + DigitRun(s[1..])] == [s[0]] + s[1..][..DigitRun(s[1..])];
      1 + DigitRun(s[1..])
  }

  /** `millis.padEnd(3, "0")` as a number: ".5" is half a second. */
  function Millis(s: string): nat
    requires AllDigits(s) && |s| <= 3
  {
    if |s| == 3 then Number(s) else if |s| == 2 then 10 * Number(s) else 100 * Number(s)
  }

  function DayMs(hours: int, minutes: int, seconds: int, millis: int): int {
    ((hours * 60 + minutes) * 60 + seconds) * 1000 + millis
  }

  predicate TwoDigitsAt(s: string, i: nat) {
    |s| >= i + 2 && IsDigit(s[i]) && IsDigit(s[i + 1])
  }

  /** What may follow the seconds: nothing, or `.` and one to three digits. */
  function ParseMillis(base: int, s: string): Option<int> {
    if s == [] then Some(base)
    else if s[0] == '.' && 2 <= |s| <= 4 && AllDigits(s[1..]) then Some(base + Millis(s[1..]))
    else None
  }

  /** What may follow the minutes: an optional `:ss`, then the milliseconds. */
  function ParseSeconds(base: int, s: string): Option<int> {
    if |s| >= 3 && s[0] == ':' && TwoDigitsAt(s, 1)
    then ParseMillis(base + DayMs(0, 0, Number(s[1..3]), 0), s[3..])
    else ParseMillis(base, s)
  }

  function ParseMinutes(base: int, s: string): Option<int> {
    if |s| >= 3 && s[0] == ':' && TwoDigitsAt(s, 1)
    then ParseSeconds(base + DayMs(0, Number(s[1..3]), 0, 0), s[3..])
    else None
  }

  function Parse(s: string): Option<int> {
    var h := DigitRun(s);
    if 1 <= h <= 2 then ParseMinutes(DayMs(Number(s[..h]), 0, 0, 0), s[h..]) else None
  }

  function Digit(d: nat): char
    requires d < 10
  {
    "0123456789"[d]
  }

  function Pad2(n: nat): string
    requires n < 100
  {
    [Digit(n / 10), Digit(n % 10)]
  }

  function Pad3(n: nat): string
    requires n < 1000
  {
    [Digit(n / 100)] + Pad2(n % 100)
  }

  predicate ClockFields(h: int, m: int, s: int, f: int) {
    0 <= h < 24 && 0 <= m < 60 && 0 <= s < 60 && 0 <= f < 1000
  }

  /** `h:m:s.ms` */
  function Layout(h: string, m: string, s: string, ms: string): string {
    h + ([':'] + m + ([':'] + s + (['.'] + ms)))
  }

  function PrintFields(h: nat, m: nat, s: nat, f: nat): string
    requires ClockFields(h, m, s, f)
  {
    Layout(Pad2(h), Pad2(m), Pad2(s), Pad3(f))
  }

  /** The text printed for a millisecond of the day. */
  function Print(ms: nat): string
    requires ms < MS_PER_DAY
  {
    var seconds := ms / 1000;
    var minutes := seconds / 60;
    PrintFields(minutes / 60, minutes % 60, seconds % 60, ms % 1000)
  }

  lemma Number2(s: string)
    requires |s| == 2 && AllDigits(s)
    ensures Number(s) == 10 * DigitValue(s[0]) + DigitValue(s[1])
  {
    var t := s[..1];
    assert Number(t) == 10 * Number(t[..0]) + DigitValue(t[0]);
  }

  lemma Number3(s: string)
    requires |s| == 3 && AllDigits(s)
    ensures Number(s) == 100 * DigitValue(s[0]) + 10 * DigitValue(s[1]) + DigitValue(s[2])
  {
    Number2(s[..2]);
  }

  lemma DigitRoundTrip(d: nat)
    requires d < 10
    ensures IsDigit(Digit(d)) && DigitValue(Digit(d)) == d
  {
  }

  lemma Pad2RoundTrip(n: nat)
    requires n < 100
    ensures AllDigits(Pad2(n)) && Number(Pad2(n)) == n
  {
    DigitRoundTrip(n / 10);
    DigitRoundTrip(n % 10);
    Number2(Pad2(n));
  }

  lemma Pad3RoundTrip(n: nat)
    requires n < 1000
    ensures AllDigits(Pad3(n)) && Number(Pad3(n)) == n
  {
    var low := Pad2(n % 100);
    DigitRoundTrip(n / 100);
    DigitRoundTrip(n % 100 / 10);
    DigitRoundTrip(n % 100 % 10);
    assert Pad3(n) == [Digit(n / 100), low[0], low[1]];
    Number3(Pad3(n));
  }

  /** A two-digit group between its separator and the rest. */
  lemma GroupAt(sep: char, digits: string, rest: string)
    requires |digits| == 2 && AllDigits(digits)
    ensures var t := [sep] + digits + rest; t[0] == sep && TwoDigitsAt(t, 1) && t[1..3] == digits && t[3..] == rest
  {
    var t := [sep] + digits + rest;
    assert t[1] == digits[0] && t[2] == digits[1];
    assert digits[0] in digits && digits[1] in digits;
    assert t[1..3] == digits && t[3..] == rest;
  }

  lemma ParseHours(h: string, rest: string)
    requires |h| == 2 && AllDigits(h) && rest != [] && !IsDigit(rest[0])
    ensures Parse(h + rest) == ParseMinutes(DayMs(Number(h), 0, 0, 0), rest)
  {
    var t := h + rest;
    assert t[0] in h && t[1] in h;
    assert t[1..][0] == h[1] && t[1..][1..] == rest;
    assert DigitRun(t) == 2;
    assert t[..2] == h && t[2..] == rest;
  }

  lemma ParseLastTwo(base: int, s: string, ms: string)
    requires |s| == 2 && |ms| == 3 && AllDigits(s) && AllDigits(ms)
    ensures ParseSeconds(base, [':'] + s + (['.'] + ms)) == Some(base + DayMs(0, 0, Number(s), Number(ms)))
  {
    GroupAt(':', s, ['.'] + ms);
    assert (['.'] + ms)[1..] == ms;
  }

  lemma ParseMiddle(base: int, m: string, tail: string)
    requires |m| == 2 && AllDigits(m)
    ensures ParseMinutes(base, [':'] + m + tail) == ParseSeconds(base + DayMs(0, Number(m), 0, 0), tail)
  {
    hide Number, ParseSeconds, DayMs;
    GroupAt(':', m, tail);
  }

  lemma DayMsAdds(h: int, m: int, s: int, ms: int)
    ensures DayMs(h, 0, 0, 0) + DayMs(0, m, 0, 0) + DayMs(0, 0, s, ms) == DayMs(h, m, s, ms)
  {
  }

  lemma ColonFirst(m: string, tail: string)
    ensures var t := [':'] + m + tail; t != [] && !IsDigit(t[0])
  {
  }

  lemma ParseFromMinutes(base: int, m: string, s: string, ms: string)
    requires |m| == |s| == 2 && |ms| == 3 && AllDigits(m) && AllDigits(s) && AllDigits(ms)
    ensures ParseMinutes(base, [':'] + m + ([':'] + s + (['.'] + ms)))
         == Some(base + DayMs(0, Number(m), 0, 0) + DayMs(0, 0, Number(s), Number(ms)))
  {
    hide ParseMinutes, ParseSeconds, DayMs, Number, AllDigits;
    ParseMiddle(base, m, [':'] + s + (['.'] + ms));
    ParseLastTwo(base + DayMs(0, Number(m), 0, 0), s, ms);
  }

  /** A text in the printed layout parses to the number its four groups spell. */
  lemma ParseLayout(h: string, m: string, s: string, ms: string)
    requires |h| == |m| == |s| == 2 && |ms| == 3
    requires AllDigits(h) && AllDigits(m) && AllDigits(s) && AllDigits(ms)
    ensures Parse(Layout(h, m, s, ms)) == Some(DayMs(Number(h), Number(m), Number(s), Number(ms)))
  {
    hide Parse, ParseMinutes, DayMs, Number, AllDigits, IsDigit;
    var tail := [':'] + s + (['.'] + ms);
    ColonFirst(m, tail);
    ParseHours(h, [':'] + m + tail);
    ParseFromMinutes(DayMs(Number(h), 0, 0, 0), m, s, ms);
    DayMsAdds(Number(h), Number(m), Number(s), Number(ms));
  }

  lemma FieldsRoundTrip(h: nat, m: nat, s: nat, f: nat)
    requires ClockFields(h, m, s, f)
    ensures Parse(PrintFields(h, m, s, f)) == Some(DayMs(h, m, s, f))
  {
    Pad2RoundTrip(h);
    Pad2RoundTrip(m);
    Pad2RoundTrip(s);
    Pad3RoundTrip(f);
    ParseLayout(Pad2(h), Pad2(m), Pad2(s), Pad3(f));
  }

  lemma FieldsAddUp(ms: nat)
    requires ms < MS_PER_DAY
    ensures var seconds := ms / 1000;
      var minutes := seconds / 60;
      && ClockFields(minutes / 60, minutes % 60, seconds % 60, ms % 1000)
      && DayMs(minutes / 60, minutes % 60, seconds % 60, ms % 1000) == ms
  {
  }

  /** Reading back what the printer wrote gives the exact millisecond of the day. */
  lemma PrintParse(ms: nat)
    requires ms < MS_PER_DAY
    ensures Parse(Print(ms)) == Some(ms)
  {
    hide Parse, PrintFields, DayMs;
    var seconds := ms / 1000;
    var minutes := seconds / 60;
    FieldsAddUp(ms);
    FieldsRoundTrip(minutes / 60, minutes % 60, seconds % 60, ms % 1000);
  }

  /** Within a day's reach, printed clocks order two instants correctly exactly when no midnight lies between them. */
  lemma PrintedOrder(earlier: int, later: int)
    requires earlier < later < earlier + MS_PER_DAY
    ensures Parse(Print(earlier % MS_PER_DAY)).Some? && Parse(Print(later % MS_PER_DAY)).Some?
    ensures Parse(Print(earlier % MS_PER_DAY)).value < Parse(Print(later % MS_PER_DAY)).value
       <==> earlier / MS_PER_DAY == later / MS_PER_DAY
  {
    PrintParse(earlier % MS_PER_DAY);
    PrintParse(later % MS_PER_DAY);
  }

  /** For instance the last millisecond of a day and the first of the next. */
  lemma MidnightSwapsOrder()
    ensures Parse(Print(MS_PER_DAY - 1)) == Some(MS_PER_DAY - 1) && Parse(Print(0)) == Some(0)
  {
    hide Parse, Print;
    PrintParse(MS_PER_DAY - 1);
    PrintParse(0);
  }

  // ----- the pattern, digit by digit ----------------------------------------------------

  predicate AreDigits(s: string) { forall i :: 0 <= i < |s| ==> '0' <= s[i] <= '9' }

  /** The value of up to three digits. */
  function Dec(s: string): int {
    if |s| == 0 then 0
    else if |s| == 1 then s[0] as int - 48
    else if |s| == 2 then 10 * (s[0] as int - 48) + (s[1] as int - 48)
    else 100 * (s[0] as int - 48) + 10 * (s[1] as int - 48) + (s[2] as int - 48)
  }

  /** One or two digits, `:mm`, and the optional `:ss` and `.m`, `.mm` or `.mmm`. */
  predicate AreGroups(h: string, m: string, sec: string, ms: string) {
    && 1 <= |h| <= 2 && |m| == 2 && (|sec| == 0 || |sec| == 2) && |ms| <= 3
    && AreDigits(h) && AreDigits(m) && AreDigits(sec) && AreDigits(ms)
  }

  function Fraction(ms: string): string { if ms == [] then [] else ['.'] + ms }

  function Tail(sec: string, ms: string): string {
    (if sec == [] then [] else [':'] + sec) + Fraction(ms)
  }

  function ClockText(h: string, m: string, sec: string, ms: string): string {
    h + (([':'] + m) + Tail(sec, ms))
  }

  /** Milliseconds of the day; a fraction counts as if it were padded to three digits with zeros. */
  function ClockValue(h: string, m: string, sec: string, ms: string): int
    requires |ms| <= 3
  {
    3_600_000 * Dec(h) + 60_000 * Dec(m) + 1000 * Dec(sec) + Dec(ms + "000"[|ms|..])
  }

  lemma NumberIsDec(s: string)
    requires |s| <= 3 && AreDigits(s)
    ensures AllDigits(s) && Number(s) == Dec(s)
  {
    if |s| == 1 {
      assert Number(s[..0]) == 0;
    } else if |s| == 2 {
      Number2(s);
    } else if |s| == 3 {
      Number3(s);
    }
  }

  lemma MillisIsDec(ms: string)
    requires 1 <= |ms| <= 3 && AreDigits(ms)
    ensures AllDigits(ms) && Millis(ms) == Dec(ms + "000"[|ms|..])
  {
    NumberIsDec(ms);
    var p := ms + "000"[|ms|..];
    assert |p| == 3 && forall i :: 0 <= i < 3 ==> p[i] == if i < |ms| then ms[i] else '0';
  }

  lemma AllAreDigits(s: string)
    ensures AllDigits(s) <==> AreDigits(s)
  {
    assert forall i :: 0 <= i < |s| ==> s[i] in s;
  }

  lemma {:induction false} DigitRunIs(s: string, n: nat)
    requires n <= |s| && AreDigits(s[..n]) && (n < |s| ==> !('0' <= s[n] <= '9'))
    ensures DigitRun(s) == n
  {
    if n > 0 {
      assert s[0] == s[..n][0];
      assert s[1..][..n - 1] == s[..n][1..];
      DigitRunIs(s[1..], n - 1);
    }
  }

  lemma ParsesFraction(base: int, ms: string)
    requires |ms| <= 3 && AreDigits(ms)
    ensures ParseMillis(base, Fraction(ms)) == Some(base + Dec(ms + "000"[|ms|..]))
  {
    if ms != [] {
      MillisIsDec(ms);
      assert Fraction(ms)[1..] == ms;
    }
  }

  lemma ParsesTail(base: int, sec: string, ms: string)
    requires (|sec| == 0 || |sec| == 2) && |ms| <= 3 && AreDigits(sec) && AreDigits(ms)
    ensures ParseSeconds(base, Tail(sec, ms)) == Some(base + 1000 * Dec(sec) + Dec(ms + "000"[|ms|..]))
  {
    hide ParseMillis, Number, Dec;
    AllAreDigits(sec);
    if sec == [] {
      DecOfNothing();
      assert Tail(sec, ms) == Fraction(ms);
      ParsesFraction(base, ms);
    } else {
      NumberIsDec(sec);
      GroupAt(':', sec, Fraction(ms));
      ParsesFraction(base + DayMs(0, 0, Number(sec), 0), ms);
    }
  }

  lemma DecOfNothing()
    ensures Dec([]) == 0
  {
  }

  lemma ParsesGroups(h: string, m: string, sec: string, ms: string)
    requires AreGroups(h, m, sec, ms)
    ensures Parse(ClockText(h, m, sec, ms)) == Some(ClockValue(h, m, sec, ms))
  {
    hide ParseMinutes, ParseSeconds, DayMs, Number, Dec, DigitRun;
    var rest := ([':'] + m) + Tail(sec, ms);
    var t := h + rest;
    assert t[..|h|] == h && t[|h|..] == rest && t[|h|] == ':';
    DigitRunIs(t, |h|);
    AllAreDigits(h);
    AllAreDigits(m);
    NumberIsDec(h);
    NumberIsDec(m);
    ParseMiddle(DayMs(Number(h), 0, 0, 0), m, Tail(sec, ms));
    ParsesTail(DayMs(Number(h), 0, 0, 0) + DayMs(0, Number(m), 0, 0), sec, ms);
    DayMsAdds(Number(h), Number(m), 0, 0);
    DayMsIs(Number(h), Number(m));
  }

  lemma DayMsIs(h: int, m: int)
    ensures DayMs(h, m, 0, 0) == 3_600_000 * h + 60_000 * m && DayMs(0, 0, 0, 0) == 0
  {
  }

  lemma FractionOf(base: int, s: string) returns (ms: string)
    requires ParseMillis(base, s).Some?
    ensures |ms| <= 3 && AreDigits(ms) && s == Fraction(ms)
  {
    ms := if s == [] then [] else s[1..];
    AllAreDigits(ms);
  }

  lemma TailOf(base: int, s: string) returns (sec: string, ms: string)
    requires ParseSeconds(base, s).Some?
    ensures (|sec| == 0 || |sec| == 2) && |ms| <= 3 && AreDigits(sec) && AreDigits(ms) && s == Tail(sec, ms)
  {
    hide ParseMillis, Number;
    if |s| >= 3 && s[0] == ':' && TwoDigitsAt(s, 1) {
      sec := s[1..3];
      ms := FractionOf(base + DayMs(0, 0, Number(sec), 0), s[3..]);
    } else {
      sec := [];
      ms := FractionOf(base, s);
    }
  }

  lemma GroupsOf(s: string) returns (h: string, m: string, sec: string, ms: string)
    requires Parse(s).Some?
    ensures AreGroups(h, m, sec, ms) && s == ClockText(h, m, sec, ms)
  {
    hide ParseMinutes, Number, DayMs;
    var n := DigitRun(s);
    h := s[..n];
    AllAreDigits(h);
    m, sec, ms := MinutesOf(DayMs(Number(h), 0, 0, 0), s[n..]);
  }

  lemma MinutesOf(base: int, s: string) returns (m: string, sec: string, ms: string)
    requires ParseMinutes(base, s).Some?
    ensures |m| == 2 && (|sec| == 0 || |sec| == 2) && |ms| <= 3
    ensures AreDigits(m) && AreDigits(sec) && AreDigits(ms) && s == ([':'] + m) + Tail(sec, ms)
  {
    hide ParseSeconds, Number, DayMs;
    m := s[1..3];
    AllAreDigits(m);
    sec, ms := TailOf(base + DayMs(0, Number(m), 0, 0), s[3..]);
  }

  /** A text is read as a clock exactly if it has this form, and then as this number of milliseconds. */
  lemma ParseIsPattern(s: string, v: int)
    ensures Parse(s) == Some(v) <==>
      exists h: string, m: string, sec: string, ms: string ::
        AreGroups(h, m, sec, ms) && s == ClockText(h, m, sec, ms) && v == ClockValue(h, m, sec, ms)
  {
    hide Parse, ClockText, ClockValue;
    if Parse(s).Some? {
      var h, m, sec, ms := GroupsOf(s);
      ParsesGroups(h, m, sec, ms);
    }
    if h: string, m: string, sec: string, ms: string :|
      AreGroups(h, m, sec, ms) && s == ClockText(h, m, sec, ms) && v == ClockValue(h, m, sec, ms)
    {
      ParsesGroups(h, m, sec, ms);
    }
  }

  lemma FieldsOf(ms: nat)
    requires ms < 86_400_000
    ensures ms / 1000 / 60 / 60 == ms / 3_600_000 < 24
    ensures ms / 1000 / 60 == ms / 60_000
  {
  }

  lemma LayoutParts(h: string, m: string, s: string, ms: string)
    requires |h| == |m| == |s| == 2 && |ms| == 3
    ensures var t := Layout(h, m, s, ms);
      && |t| == 12 && t[2] == ':' && t[5] == ':' && t[8] == '.'
      && t[..2] == h && t[3..5] == m && t[6..8] == s && t[9..] == ms
  {
  }

  /** The printed text itself: hours, minutes, seconds and milliseconds, two digits each but for the last three. */
  lemma PrintIsClockText(ms: nat)
    requires ms < 86_400_000
    ensures ms < MS_PER_DAY && |Print(ms)| == 12
    ensures Print(ms)[2] == ':' && Print(ms)[5] == ':' && Print(ms)[8] == '.'
    ensures Dec(Print(ms)[..2]) == ms / 3_600_000 && Dec(Print(ms)[3..5]) == ms / 60_000 % 60
    ensures Dec(Print(ms)[6..8]) == ms / 1000 % 60 && Dec(Print(ms)[9..]) == ms % 1000
  {
    hide Layout, Dec, Pad2, Pad3;
    var seconds := ms / 1000;
    var minutes := seconds / 60;
    FieldsOf(ms);
    DecOfPads(minutes / 60, ms % 1000);
    DecOfPads(minutes % 60, ms % 1000);
    DecOfPads(seconds % 60, ms % 1000);
    LayoutParts(Pad2(minutes / 60), Pad2(minutes % 60), Pad2(seconds % 60), Pad3(ms % 1000));
  }

  lemma DecOfPads(n: nat, f: nat)
    requires n < 100 && f < 1000
    ensures |Pad2(n)| == 2 && Dec(Pad2(n)) == n && |Pad3(f)| == 3 && Dec(Pad3(f)) == f
  {
    DigitRoundTrip(n / 10);
    DigitRoundTrip(n % 10);
    DigitRoundTrip(f / 100);
    DigitRoundTrip(f % 100 / 10);
    DigitRoundTrip(f % 100 % 10);
  }
}
