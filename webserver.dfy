/** The uptime formatter get_uptime_str of webserver.cpp: seconds split
    into days:hours:minutes:seconds, days wrapping every 30 days, printed as
    unpadded decimal numbers separated by ':'. Decimal printing follows
    Arduino's String(uint32_t); a parser and a splitter on ':' are the
    partners that read the text back. */
module WebServer {
  import opened Station

  const SECONDS_PER_MINUTE: nat := 60
  const SECONDS_PER_HOUR: nat := 3600
  const SECONDS_PER_DAY: nat := 86400
  /** The day count wraps after 30 days. */
  const WRAP_SECONDS: nat := 86400 * 30

  /** The four fields of an uptime. */
  datatype Uptime = Uptime(days: nat, hours: nat, minutes: nat, seconds: nat)

  /** The fields of sec seconds of uptime: each is within its unit, and
      together they make up sec modulo 30 days. */
  function UptimeFields(sec: uint32): (u: Uptime)
    ensures u.seconds < 60 && u.minutes < 60 && u.hours < 24 && u.days < 30
    ensures u.days * 86400 + u.hours * 3600 + u.minutes * 60 + u.seconds == sec % WRAP_SECONDS
  {
    var r, rd, rh := sec % WRAP_SECONDS, sec % SECONDS_PER_DAY, sec % SECONDS_PER_HOUR;
    DayRemainder(sec);
    HourRemainder(sec);
    MinuteRemainder(sec);
    Uptime(r / SECONDS_PER_DAY, rd / SECONDS_PER_HOUR, rh / SECONDS_PER_MINUTE, sec % SECONDS_PER_MINUTE)
  }

  /** Within the 30-day window the remainder of a day is the same. */
  lemma DayRemainder(x: nat)
    ensures (x % 2592000) % 86400 == x % 86400
  {
    var r := x % 2592000;
    assert x == 86400 * (30 * (x / 2592000) + r / 86400) + r % 86400;
  }

  /** Within a day the remainder of an hour is the same. */
  lemma HourRemainder(x: nat)
    ensures (x % 86400) % 3600 == x % 3600
  {
    var r := x % 86400;
    assert x == 3600 * (24 * (x / 86400) + r / 3600) + r % 3600;
  }

  /** Within an hour the remainder of a minute is the same. */
  lemma MinuteRemainder(x: nat)
    ensures (x % 3600) % 60 == x % 60
  {
    var r := x % 3600;
    assert x == 60 * (60 * (x / 3600) + r / 60) + r % 60;
  }

  // ----- Decimal numerals ------------------------------------------------

  predicate IsDigit(c: char)
  {
    '0' <= c <= '9'
  }

  /** s is a string of decimal digits. */
  predicate AllDigits(s: string)
  {
    forall i :: 0 <= i < |s| ==> IsDigit(s[i])
  }

  function DigitChar(d: nat): (c: char)
    requires d < 10
    ensures IsDigit(c)
  {
    (48 + d) as char
  }

  function DigitValue(c: char): nat
    requires IsDigit(c)
  {
    c as int - 48
  }

  /** The unpadded decimal numeral of n, as String(n) prints it. */
  function NatToString(n: nat): (s: string)
    ensures |s| > 0 && AllDigits(s)
    decreases n
  {
    if n < 10 then [DigitChar(n)] else NatToString(n / 10) + [DigitChar(n % 10)]
  }

  /** The value of a string of digits. */
  function ParseDecimal(s: string): nat
    requires AllDigits(s)
    decreases |s|
  {
    if s == [] then 0 else 10 * ParseDecimal(s[..|s| - 1]) + DigitValue(s[|s| - 1])
  }

  /** Printing a number and reading it back gives the number. */
  lemma {:induction false} ParsePrinted(n: nat)
    ensures ParseDecimal(NatToString(n)) == n
    decreases n
  {
    var s := NatToString(n);
    if n >= 10 {
      ParsePrinted(n / 10);
      assert s[..|s| - 1] == NatToString(n / 10);
    }
  }

  /** The numeral has no leading zero. */
  lemma NoLeadingZero(n: nat)
    ensures NatToString(n)[0] == '0' <==> n == 0
    decreases n
  {
    if n >= 10 {
      NoLeadingZero(n / 10);
    }
  }

  // ----- The formatted uptime --------------------------------------------

  const SEPARATOR: char := ':'

  /** The pieces, in order, with a separator between each two. */
  function Join(parts: seq<string>): string
    requires |parts| > 0
  {
    if |parts| == 1 then parts[0] else parts[0] + [SEPARATOR] + Join(parts[1..])
  }

  /** get_uptime_str: the four fields, in order, separated by ':', which
      puts exactly three separators in the text. */
  function UptimeStr(sec: uint32): (s: string)
    ensures multiset(s)[SEPARATOR] == 3
  {
    var u := UptimeFields(sec);
    var parts := [NatToString(u.days), NatToString(u.hours), NatToString(u.minutes), NatToString(u.seconds)];
    NumeralHasNoSeparator(u.days);
    NumeralHasNoSeparator(u.hours);
    NumeralHasNoSeparator(u.minutes);
    NumeralHasNoSeparator(u.seconds);
    JoinSeparators(parts);
    Join(parts)
  }

  /** The pieces of s between the separators. */
  function Split(s: string): (parts: seq<string>)
    ensures |parts| > 0
    decreases |s|
  {
    if s == [] then [[]]
    else if s[0] == SEPARATOR then [[]] + Split(s[1..])
    else
      var rest := Split(s[1..]);
      [[s[0]] + rest[0]] + rest[1..]
  }

  /** A piece without separators splits to itself. */
  lemma {:induction false} SplitPiece(a: string)
    requires SEPARATOR !in a
    ensures Split(a) == [a]
    decreases |a|
  {
    if a != [] {
      SplitPiece(a[1..]);
      assert [a[0]] + a[1..] == a;
    }
  }

  /** Splitting a piece, a separator and the rest gives the piece, then the
      pieces of the rest. */
  lemma {:induction false} SplitAfterPiece(a: string, b: string)
    requires SEPARATOR !in a
    ensures Split(a + [SEPARATOR] + b) == [a] + Split(b)
    decreases |a|
  {
    var s := a + [SEPARATOR] + b;
    if a == [] {
      assert s[1..] == b;
    } else {
      assert s[1..] == a[1..] + [SEPARATOR] + b;
      SplitAfterPiece(a[1..], b);
      assert [a[0]] + a[1..] == a;
    }
  }

  lemma NumeralHasNoSeparator(n: nat)
    ensures SEPARATOR !in NatToString(n)
  {
    var s := NatToString(n);
    assert forall i :: 0 <= i < |s| ==> s[i] != SEPARATOR;
  }

  /** Splitting joined pieces that hold no separator gives back the pieces. */
  lemma {:induction false} SplitJoin(parts: seq<string>)
    requires |parts| > 0 && forall k :: 0 <= k < |parts| ==> SEPARATOR !in parts[k]
    ensures Split(Join(parts)) == parts
    decreases |parts|
  {
    if |parts| == 1 {
      SplitPiece(parts[0]);
    } else {
      SplitAfterPiece(parts[0], Join(parts[1..]));
      SplitJoin(parts[1..]);
      assert [parts[0]] + parts[1..] == parts;
    }
  }

  /** Joining n pieces that hold no separator puts n - 1 separators in. */
  lemma {:induction false} JoinSeparators(parts: seq<string>)
    requires |parts| > 0 && forall k :: 0 <= k < |parts| ==> SEPARATOR !in parts[k]
    ensures multiset(Join(parts))[SEPARATOR] == |parts| - 1
    decreases |parts|
  {
    if |parts| == 1 {
      assert multiset(parts[0])[SEPARATOR] == 0;
    } else {
      JoinSeparators(parts[1..]);
      assert multiset(parts[0])[SEPARATOR] == 0;
    }
  }

  /** Splitting the uptime text on ':' gives exactly the four numerals, and
      parsing them gives back the fields. */
  lemma UptimeRoundTrip(sec: uint32)
    ensures var parts := Split(UptimeStr(sec));
      |parts| == 4 &&
      AllDigits(parts[0]) && AllDigits(parts[1]) && AllDigits(parts[2]) && AllDigits(parts[3]) &&
      var u := UptimeFields(sec);
      ParseDecimal(parts[0]) == u.days && ParseDecimal(parts[1]) == u.hours &&
      ParseDecimal(parts[2]) == u.minutes && ParseDecimal(parts[3]) == u.seconds &&
      parts == [NatToString(u.days), NatToString(u.hours), NatToString(u.minutes), NatToString(u.seconds)]
  {
    var u := UptimeFields(sec);
    NumeralHasNoSeparator(u.days);
    NumeralHasNoSeparator(u.hours);
    NumeralHasNoSeparator(u.minutes);
    NumeralHasNoSeparator(u.seconds);
    SplitJoin([NatToString(u.days), NatToString(u.hours), NatToString(u.minutes), NatToString(u.seconds)]);
    ParsePrinted(u.days);
    ParsePrinted(u.hours);
    ParsePrinted(u.minutes);
    ParsePrinted(u.seconds);
  }

  /** The four parts of the uptime text are unpadded: each is "0" or starts
      with a non-zero digit. */
  lemma UptimeUnpadded(sec: uint32)
    ensures var parts := Split(UptimeStr(sec));
      |parts| == 4 && forall k :: 0 <= k < 4 ==> |parts[k]| > 0 && (parts[k][0] == '0' ==> |parts[k]| == 1)
  {
    var u := UptimeFields(sec);
    UptimeRoundTrip(sec);
    var parts := Split(UptimeStr(sec));
    assert parts[0] == NatToString(u.days) && parts[1] == NatToString(u.hours);
    assert parts[2] == NatToString(u.minutes) && parts[3] == NatToString(u.seconds);
    SingleZero(u.days);
    SingleZero(u.hours);
    SingleZero(u.minutes);
    SingleZero(u.seconds);
  }

  /** A numeral that starts with '0' is the one digit "0". */
  lemma SingleZero(n: nat)
    ensures NatToString(n)[0] == '0' ==> |NatToString(n)| == 1
  {
    NoLeadingZero(n);
  }

  /** The fields determine the time modulo 30 days, and the other way round. */
  lemma UptimeFieldsSameIffWrap(a: uint32, b: uint32)
    ensures UptimeFields(a) == UptimeFields(b) <==> a % WRAP_SECONDS == b % WRAP_SECONDS
  {
    var u, v := UptimeFields(a), UptimeFields(b);
    if a % WRAP_SECONDS == b % WRAP_SECONDS {
      MixedRadixUnique(u.days, u.hours, u.minutes, u.seconds, v.days, v.hours, v.minutes, v.seconds);
    }
  }

  /** A days-hours-minutes-seconds representation is unique. */
  lemma MixedRadixUnique(d: nat, h: nat, m: nat, s: nat, d': nat, h': nat, m': nat, s': nat)
    requires h < 24 && m < 60 && s < 60 && h' < 24 && m' < 60 && s' < 60
    requires d * 86400 + h * 3600 + m * 60 + s == d' * 86400 + h' * 3600 + m' * 60 + s'
    ensures d == d' && h == h' && m == m' && s == s'
  {
  }

  /** The text determines the fields. */
  lemma UptimeStrDeterminesFields(a: uint32, b: uint32)
    requires UptimeStr(a) == UptimeStr(b)
    ensures UptimeFields(a) == UptimeFields(b)
  {
    UptimeRoundTrip(a);
    UptimeRoundTrip(b);
  }

  /** Two uptimes print the same text exactly when they agree modulo 30
      days: the text wraps every 30 days, and within one 30-day window it
      determines the time. */
  lemma UptimeStrSameIffWrap(a: uint32, b: uint32)
    ensures UptimeStr(a) == UptimeStr(b) <==> a % WRAP_SECONDS == b % WRAP_SECONDS
  {
    UptimeFieldsSameIffWrap(a, b);
    if UptimeStr(a) == UptimeStr(b) {
      UptimeStrDeterminesFields(a, b);
    }
  }

  /** Under a minute of uptime every field but the seconds is 0. */
  lemma FieldsUnderAMinute(sec: uint32)
    requires sec < 60
    ensures UptimeFields(sec) == Uptime(0, 0, 0, sec)
  {
  }

  /** Joining four pieces, written out. */
  lemma JoinFour(a: string, b: string, c: string, d: string)
    ensures Join([a, b, c, d]) == a + [SEPARATOR] + (b + [SEPARATOR] + (c + [SEPARATOR] + d))
  {
    assert [c, d][1..] == [d];
    assert Join([c, d]) == c + [SEPARATOR] + d;
    assert [b, c, d][1..] == [c, d];
    assert Join([b, c, d]) == b + [SEPARATOR] + Join([c, d]);
    assert [a, b, c, d][1..] == [b, c, d];
  }

  /** Three "0" pieces and separators before s spell "0:0:0:" and s. */
  lemma ThreeZerosPrefix(z: string, s: string)
    requires z == "0"
    ensures z + [SEPARATOR] + (z + [SEPARATOR] + (z + [SEPARATOR] + s)) == "0:0:0:" + s
  {
  }

  /** Under a minute of uptime prints as "0:0:0:" and the seconds. */
  lemma UptimeUnderAMinute(sec: uint32)
    requires sec < 60
    ensures UptimeStr(sec) == "0:0:0:" + NatToString(sec)
  {
    FieldsUnderAMinute(sec);
    var z, s := NatToString(0), NatToString(sec);
    assert z == "0" by {
      assert DigitChar(0) == '0';
    }
    JoinFour(z, z, z, s);
    ThreeZerosPrefix(z, s);
  }
}
