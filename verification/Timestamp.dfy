/**
 Event timestamps (src/evt/render.rs, `parse_iso8601_timestamp`): fixed byte positions of a UTF-8
 string, each number read by Rust's integer `parse`. The printed form is that of section 5.6 of
 RFC 3339 with `T` and `Z`.
 */
module Timestamp {
  import opened Wrappers
  import opened Bytes
  import opened Calendar

  // ----- integers -----

  const PLUS: byte := 0x2B
  const MINUS: byte := 0x2D
  const DOT: byte := 0x2E
  const ZERO: byte := 0x30

  predicate IsDigit(b: byte) {
    0x30 <= b <= 0x39
  }

  /** The value of a non-empty string of digits. */
  function Digits(s: seq<byte>): (r: Option<nat>)
  {
    if s == [] || !IsDigit(s[|s| - 1]) then None
    else if |s| == 1 then Some(s[0] - ZERO)
    else
      var head :- Digits(s[..|s| - 1]);
      Some(10 * head + (s[|s| - 1] - ZERO))
  }

  /** `str::parse::<u32>` of a short string: an optional plus sign, then digits. */
  function ParseUnsigned(s: seq<byte>): (r: Option<nat>)
  {
    if s != [] && s[0] == PLUS then Digits(s[1..]) else Digits(s)
  }

  /** `str::parse::<i32>` of a short string. */
  function ParseSigned(s: seq<byte>): (r: Option<int>)
  {
    if s != [] && s[0] == MINUS then
      var n :- Digits(s[1..]);
      Some(-(n as int))
    else
      var n :- ParseUnsigned(s);
      Some(n)
  }

  // ----- the text -----

  /** A UTF-8 character starts (or the text ends) at i. */
  predicate Boundary(text: seq<byte>, i: nat) {
    i == |text| || (i < |text| && !(0x80 <= text[i] < 0xC0))
  }

  /** `str::get(a..b)` */
  function Get(text: seq<byte>, a: nat, b: nat): (r: Option<seq<byte>>)
    requires a <= b
    ensures r.Some? ==> b <= |text| && r.value == text[a..b]
  {
    if b <= |text| && Boundary(text, a) && Boundary(text, b) then Some(text[a..b]) else None
  }

  function UnsignedField(text: seq<byte>, a: nat, b: nat): (r: Option<nat>)
    requires a <= b
  {
    var s :- Get(text, a, b);
    ParseUnsigned(s)
  }

  /** The fraction: absent without a dot; with one, six bytes must follow, and read as 0 if they are no number. */
  function FractionField(text: seq<byte>): (r: Option<nat>)
    requires |text| >= 20
  {
    if |text| > 20 && text[19] == DOT then
      var s :- Get(text, 20, 26);
      var n := ParseUnsigned(s);
      Some(if n.Some? then n.value else 0)
    else Some(0)
  }

  datatype Fields = Fields(year: int, month: nat, day: nat, hour: nat, minute: nat, second: nat, micros: nat)

  function FieldsOf(text: seq<byte>): (r: Option<Fields>)
  {
    if |text| < 20 then None
    else
      var yearText :- Get(text, 0, 4);
      var year :- ParseSigned(yearText);
      var month :- UnsignedField(text, 5, 7);
      var day :- UnsignedField(text, 8, 10);
      var hour :- UnsignedField(text, 11, 13);
      var minute :- UnsignedField(text, 14, 16);
      var second :- UnsignedField(text, 17, 19);
      var micros :- FractionField(text);
      Some(Fields(year, month, day, hour, minute, second, micros))
  }

  /** A time as seconds and microseconds after the epoch; a panic; or no time. */
  datatype Outcome = NoTime | Panic | Time(seconds: nat, micros: nat)

  function Seconds(days: nat, hour: nat, minute: nat, second: nat): (s: nat)
  {
    days * 86400 + hour * 3600 + minute * 60 + second
  }

  /** No field's range is checked; the day count may panic. */
  function TimeOf(f: Fields): (o: Outcome)
  {
    var days := CountedDays(f.year, f.month, f.day);
    if days.None? then Panic else Time(Seconds(days.value, f.hour, f.minute, f.second), f.micros)
  }

  function TimestampOf(text: seq<byte>): (o: Outcome)
  {
    var f := FieldsOf(text);
    if f.None? then NoTime else TimeOf(f.value)
  }

  /** The text has all its fields, and a month past the table or no day. */
  predicate OutOfTable(text: seq<byte>) {
    var f := FieldsOf(text);
    f.Some? && (f.value.month >= 14 || f.value.day == 0)
  }

  /** The text has all its fields, and this is their Unix time with the microseconds read. */
  ghost predicate IsUnixTime(text: seq<byte>, o: Outcome) {
    var f := FieldsOf(text);
    f.Some? && o.Time? && o.seconds == UnixTime(f.value) && o.micros == f.value.micros
  }

  /** `parse_iso8601_timestamp`: right on every printed time whose fraction it can read, and when it panics. */
  method ParseTimestamp(text: seq<byte>) returns (o: Outcome)
    ensures o == TimestampOf(text)
    ensures o == NoTime <==> FieldsOf(text).None?
    ensures o == Panic <==> OutOfTable(text)
    ensures forall t, fraction ::
              ValidTime(t) && AllDigits(fraction) && (|fraction| == 0 || |fraction| >= 6) && text == Print(t, fraction)
              ==> o == Instant(t, TrueMicros(fraction))
    ensures o.Time? ==> IsUnixTime(text, o)
  {
    PanicsIff(text);
    if FieldsOf(text).Some? {
      TimeIsUnixTime(FieldsOf(text).value);
    }
    forall t, fraction |
      ValidTime(t) && AllDigits(fraction) && (|fraction| == 0 || |fraction| >= 6) && text == Print(t, fraction)
      ensures TimestampOf(text) == Instant(t, TrueMicros(fraction))
    {
      PrintParse(t, fraction);
    }

    var fields := FieldsOf(text);
    if fields.None? {
      return NoTime;
    }
    var f := fields.value;
    var days := CountDays(f.year, f.month, f.day);
    if days.None? {
      return Panic;
    }
    return Time(Seconds(days.value, f.hour, f.minute, f.second), f.micros);
  }

  // ----- printing -----

  datatype DateTime = DateTime(date: Date, hour: nat, minute: nat, second: nat)

  predicate ValidTime(t: DateTime) {
    Valid(t.date) && t.date.year <= 9999 && t.hour < 24 && t.minute < 60 && t.second < 60
  }

  function Digit(n: nat): (b: byte)
    requires n < 10
  {
    n + ZERO
  }

  predicate AllDigits(s: seq<byte>) {
    forall i :: 0 <= i < |s| ==> IsDigit(s[i])
  }

  /** Fields that fit the fixed-width form; they need not be a date or a time of day. */
  predicate Printable(f: Fields) {
    0 <= f.year <= 9999 && f.month < 100 && f.day < 100 && f.hour < 100 && f.minute < 100 && f.second < 100
  }

  /** `YYYY-MM-DDTHH:MM:SS` */
  function PrintBase(f: Fields): (s: seq<byte>)
    requires Printable(f)
    ensures |s| == 19
  {
    var y := f.year;
    [Digit(y / 1000), Digit(y / 100 % 10), Digit(y / 10 % 10), Digit(y % 10), MINUS,
     Digit(f.month / 10), Digit(f.month % 10), MINUS,
     Digit(f.day / 10), Digit(f.day % 10), 0x54,
     Digit(f.hour / 10), Digit(f.hour % 10), 0x3A,
     Digit(f.minute / 10), Digit(f.minute % 10), 0x3A,
     Digit(f.second / 10), Digit(f.second % 10)]
  }

  /** The full form, with a fraction of any number of digits; none means no dot. */
  function PrintFields(f: Fields, fraction: seq<byte>): (s: seq<byte>)
    requires Printable(f)
  {
    PrintBase(f) + (if fraction == [] then [0x5A] else [DOT] + fraction + [0x5A])
  }

  function FieldsOfTime(t: DateTime): (f: Fields)
    requires ValidTime(t)
    ensures Printable(f)
  {
    Fields(t.date.year, t.date.month, t.date.day, t.hour, t.minute, t.second, 0)
  }

  function Print(t: DateTime, fraction: seq<byte>): (s: seq<byte>)
    requires ValidTime(t)
  {
    PrintFields(FieldsOfTime(t), fraction)
  }

  lemma TwoDigits(s: seq<byte>, n: nat)
    requires n < 100 && |s| == 2 && s[0] == Digit(n / 10) && s[1] == Digit(n % 10)
    ensures ParseUnsigned(s) == Some(n)
  {
    assert s[..1] == [s[0]];
    assert Digits(s[..1]) == Some(n / 10);
  }

  /** The value of four digits. */
  lemma FourDigitValues(s: seq<byte>, a: nat, b: nat, c: nat, d: nat)
    requires a < 10 && b < 10 && c < 10 && d < 10 && s == [Digit(a), Digit(b), Digit(c), Digit(d)]
    ensures ParseSigned(s) == Some(1000 * a + 100 * b + 10 * c + d)
  {
    assert s[..3] == [Digit(a), Digit(b), Digit(c)] && s[..3][..2] == [Digit(a), Digit(b)];
    assert [Digit(a), Digit(b)][..1] == [Digit(a)];
    assert Digits([Digit(a)]) == Some(a);
    assert Digits([Digit(a), Digit(b)]) == Some(10 * a + b);
    assert Digits(s[..3]) == Some(10 * (10 * a + b) + c);
  }

  lemma DecimalParts(n: nat)
    requires n < 10000
    ensures n / 1000 < 10
    ensures n == 1000 * (n / 1000) + 100 * (n / 100 % 10) + 10 * (n / 10 % 10) + n % 10
  {
    var tens, hundreds := n / 10, n / 100;
    assert hundreds == tens / 10 && n / 1000 == hundreds / 10;
    assert n == 10 * tens + n % 10 && tens == 10 * hundreds + tens % 10;
    assert hundreds == 10 * (hundreds / 10) + hundreds % 10;
  }

  lemma FourDigits(s: seq<byte>, n: nat)
    requires n < 10000 && |s| == 4
    requires s[0] == Digit(n / 1000) && s[1] == Digit(n / 100 % 10)
    requires s[2] == Digit(n / 10 % 10) && s[3] == Digit(n % 10)
    ensures ParseSigned(s) == Some(n)
  {
    DecimalParts(n);
    FourDigitValues(s, n / 1000, n / 100 % 10, n / 10 % 10, n % 10);
  }

  lemma FieldAt(text: seq<byte>, a: nat, n: nat)
    requires a + 3 <= |text| && n < 100 && text[a] == Digit(n / 10) && text[a + 1] == Digit(n % 10)
             && text[a + 2] < 0x80
    ensures UnsignedField(text, a, a + 2) == Some(n)
  {
    TwoDigits(text[a..a + 2], n);
  }

  lemma YearAt(text: seq<byte>, n: nat)
    requires |text| >= 5 && n < 10000 && text[4] < 0x80
    requires text[0] == Digit(n / 1000) && text[1] == Digit(n / 100 % 10)
    requires text[2] == Digit(n / 10 % 10) && text[3] == Digit(n % 10)
    ensures Get(text, 0, 4).Some? && ParseSigned(Get(text, 0, 4).value) == Some(n)
  {
    FourDigits(text[0..4], n);
  }

  /** The date and time fields of any text that starts with a printed date and time. */
  lemma BaseFields(f: Fields, text: seq<byte>)
    requires Printable(f) && |text| >= 20 && PrintBase(f) <= text && text[19] < 0x80
    ensures var micros := FractionField(text);
            FieldsOf(text) == if micros.None? then None else Some(f.(micros := micros.value))
  {
    DateFields(f, text);
    ClockFields(f, text);
  }

  lemma DateFields(f: Fields, text: seq<byte>)
    requires Printable(f) && |text| >= 20 && PrintBase(f) <= text
    ensures Get(text, 0, 4).Some? && ParseSigned(Get(text, 0, 4).value) == Some(f.year)
    ensures UnsignedField(text, 5, 7) == Some(f.month)
    ensures UnsignedField(text, 8, 10) == Some(f.day)
  {
    var base := PrintBase(f);
    assert forall i :: 0 <= i < 11 ==> text[i] == base[i];
    YearAt(text, f.year);
    FieldAt(text, 5, f.month);
    FieldAt(text, 8, f.day);
  }

  lemma ClockFields(f: Fields, text: seq<byte>)
    requires Printable(f) && |text| >= 20 && PrintBase(f) <= text && text[19] < 0x80
    ensures UnsignedField(text, 11, 13) == Some(f.hour)
    ensures UnsignedField(text, 14, 16) == Some(f.minute)
    ensures UnsignedField(text, 17, 19) == Some(f.second)
  {
    var base := PrintBase(f);
    assert forall i :: 11 <= i < 19 ==> text[i] == base[i];
    FieldAt(text, 11, f.hour);
    FieldAt(text, 14, f.minute);
    FieldAt(text, 17, f.second);
  }

  lemma {:induction false} DigitsOfDigits(s: seq<byte>)
    requires AllDigits(s) && s != []
    ensures Digits(s).Some? && ParseUnsigned(s) == Digits(s)
  {
    if |s| > 1 {
      DigitsOfDigits(s[..|s| - 1]);
    }
  }

  // ----- the fields, byte by byte -----

  /** A UTF-8 character starts at i, or the text ends there. */
  predicate StartsChar(text: seq<byte>, i: nat) {
    i == |text| || (i < |text| && (text[i] < 0x80 || text[i] >= 0xC0))
  }

  /** The digit at the k-th place from the right, 0 beyond the left end. */
  function Place(s: seq<byte>, k: nat): (d: int) {
    if k < |s| then s[|s| - 1 - k] as int - 0x30 else 0
  }

  /** One to six digits that say n. */
  predicate Spells(s: seq<byte>, n: int) {
    && 1 <= |s| <= 6
    && (forall i :: 0 <= i < |s| ==> 0x30 <= s[i] <= 0x39)
    && n == Place(s, 0) + 10 * Place(s, 1) + 100 * Place(s, 2) + 1000 * Place(s, 3) + 10000 * Place(s, 4)
            + 100000 * Place(s, 5)
  }

  lemma {:induction false} DigitsSpell(s: seq<byte>, n: nat)
    requires |s| <= 6
    ensures Digits(s) == Some(n) <==> Spells(s, n)
    decreases |s|
  {
    if |s| > 1 {
      DigitsOfHead(s, n);
    }
  }

  lemma {:induction false} DigitsOfHead(s: seq<byte>, n: nat)
    requires 2 <= |s| <= 6
    ensures Digits(s) == Some(n) <==> Spells(s, n)
    decreases |s|, 0
  {
    var head := s[..|s| - 1];
    assert forall k: nat :: k < |head| ==> Place(s, k + 1) == Place(head, k);
    var d := Place(s, 0);
    if Digits(s) == Some(n) {
      DigitsSpell(head, Digits(head).value);
    } else if Spells(s, n) {
      DigitsSpell(head, (n - d) / 10);
    }
  }

  /** The bytes from a to b are whole characters and say n, with or without a plus sign. */
  predicate UnsignedAt(text: seq<byte>, a: nat, b: nat, n: int) {
    && a < b <= |text| && StartsChar(text, b)
    && (Spells(text[a..b], n) || (text[a] == 0x2B && Spells(text[a + 1..b], n)))
  }

  /** The first four bytes say y, with or without a sign. */
  predicate YearSays(text: seq<byte>, y: int) {
    && 4 <= |text| && StartsChar(text, 4)
    && (|| Spells(text[..4], y)
        || (text[0] == 0x2B && Spells(text[1..4], y))
        || (text[0] == 0x2D && Spells(text[1..4], -y)))
  }

  /** No digits from a to b, nor a plus sign with digits. */
  predicate NoNumberAt(text: seq<byte>, a: nat, b: nat)
    requires a < b <= |text|
  {
    !AllDigits(text[a..b]) && !(text[a] == 0x2B && AllDigits(text[a + 1..b]))
  }

  /** Six bytes behind a dot at position 19; no dot, or no number there, is 0. */
  predicate FractionSays(text: seq<byte>, n: int)
    requires |text| >= 20
  {
    if |text| == 20 || text[19] != 0x2E then n == 0
    else
      && 26 <= |text| && StartsChar(text, 20) && StartsChar(text, 26)
      && (UnsignedAt(text, 20, 26, n) || (n == 0 && NoNumberAt(text, 20, 26)))
  }

  lemma {:induction false} UnsignedIff(text: seq<byte>, a: nat, b: nat, n: nat)
    requires a < b <= a + 6
    ensures UnsignedField(text, a, b) == Some(n) <==> UnsignedAt(text, a, b, n)
  {
    if b <= |text| {
      var s := text[a..b];
      DigitsSpell(s, n);
      DigitsSpell(s[1..], n);
      assert s[1..] == text[a + 1..b];
    }
  }

  lemma {:induction false} YearIff(text: seq<byte>, y: int)
    ensures (var s := Get(text, 0, 4); s.Some? && ParseSigned(s.value) == Some(y)) <==> YearSays(text, y)
  {
    if 4 <= |text| {
      var s := text[0..4];
      assert s == text[..4] && s[1..] == text[1..4];
      if y >= 0 {
        DigitsSpell(s, y);
        DigitsSpell(s[1..], y);
      }
      if y <= 0 {
        DigitsSpell(s[1..], -y);
      }
    }
  }

  lemma {:induction false} NoNumberIff(s: seq<byte>)
    requires s != []
    ensures ParseUnsigned(s).None? <==> !AllDigits(s) && !(s[0] == 0x2B && AllDigits(s[1..]) && |s| > 1)
  {
    OnlyDigits(s);
    OnlyDigits(s[1..]);
  }

  lemma {:induction false} OnlyDigits(s: seq<byte>)
    ensures Digits(s).Some? <==> s != [] && AllDigits(s)
    decreases |s|
  {
    if |s| > 1 {
      OnlyDigits(s[..|s| - 1]);
    }
  }

  lemma {:induction false} FractionIff(text: seq<byte>, n: nat)
    requires |text| >= 20
    ensures FractionField(text) == Some(n) <==> FractionSays(text, n)
  {
    if 26 <= |text| && text[19] == DOT {
      UnsignedIff(text, 20, 26, n);
      NoNumberIff(text[20..26]);
      assert text[20..26][1..] == text[21..26];
    }
  }

  /**
   The fields of a text: at least 20 bytes, a number at each of the fixed places, and whatever characters between them,
   which are never looked at.
   */
  lemma {:induction false} FieldsIff(text: seq<byte>, f: Fields)
    ensures FieldsOf(text) == Some(f)
            <==> && |text| >= 20
                 && YearSays(text, f.year) && UnsignedAt(text, 5, 7, f.month) && UnsignedAt(text, 8, 10, f.day)
                 && UnsignedAt(text, 11, 13, f.hour) && UnsignedAt(text, 14, 16, f.minute)
                 && UnsignedAt(text, 17, 19, f.second) && FractionSays(text, f.micros)
  {
    if |text| >= 20 {
      YearIff(text, f.year);
      UnsignedIff(text, 5, 7, f.month);
      UnsignedIff(text, 8, 10, f.day);
      UnsignedIff(text, 11, 13, f.hour);
      UnsignedIff(text, 14, 16, f.minute);
      UnsignedIff(text, 17, 19, f.second);
      FractionIff(text, f.micros);
    }
  }

  /** How the parser reads a fraction: it wants six digits, and takes five for zero. */
  function ReadFraction(fraction: seq<byte>): (r: Option<nat>)
  {
    if fraction == [] then Some(0)
    else if |fraction| < 5 then None
    else if |fraction| == 5 then Some(0)
    else Digits(fraction[..6])
  }

  lemma FractionOfPrinted(f: Fields, fraction: seq<byte>)
    requires Printable(f) && AllDigits(fraction)
    ensures FractionField(PrintFields(f, fraction)) == ReadFraction(fraction)
  {
    var text := PrintFields(f, fraction);
    if |fraction| >= 5 {
      assert forall i :: 0 <= i < |fraction| ==> text[20 + i] == fraction[i];
      assert text[20 + |fraction|] == 0x5A;
      assert Get(text, 20, 26) == Some(text[20..26]);
      if |fraction| == 5 {
        assert text[20..26] == fraction + [0x5A];
        assert !IsDigit(text[20..26][5]) && text[20..26][0] != PLUS;
      } else {
        assert text[20..26] == fraction[..6];
        DigitsOfDigits(fraction[..6]);
      }
    }
  }

  /** Parsing what was printed, for every fixed-width field values and every fraction. */
  lemma ParsePrinted(f: Fields, fraction: seq<byte>)
    requires Printable(f) && AllDigits(fraction)
    ensures TimestampOf(PrintFields(f, fraction))
         == if ReadFraction(fraction).None? then NoTime else TimeOf(f.(micros := ReadFraction(fraction).value))
  {
    var text := PrintFields(f, fraction);
    assert text[19] == if fraction == [] then 0x5A else DOT;
    BaseFields(f, text);
    FractionOfPrinted(f, fraction);
  }

  /** The number the first k digits of a fraction denote, missing ones read as zero. */
  function Scaled(fraction: seq<byte>, k: nat): (n: nat)
    requires AllDigits(fraction)
  {
    if k == 0 then 0
    else 10 * Scaled(fraction, k - 1) + if k <= |fraction| then fraction[k - 1] - ZERO else 0
  }

  /** The microseconds a fraction stands for. */
  function TrueMicros(fraction: seq<byte>): (n: nat)
    requires AllDigits(fraction)
  {
    Scaled(fraction, 6)
  }

  lemma {:induction false} ScaledIsDigits(fraction: seq<byte>, k: nat)
    requires AllDigits(fraction) && 1 <= k <= |fraction|
    ensures Digits(fraction[..k]) == Some(Scaled(fraction, k))
  {
    assert fraction[..k][..k - 1] == fraction[..k - 1];
    if k > 1 {
      ScaledIsDigits(fraction, k - 1);
    } else {
      assert Scaled(fraction, 0) == 0;
    }
  }

  lemma {:induction false} ScaledEmpty(k: nat)
    ensures Scaled([], k) == 0
  {
    if k > 0 {
      ScaledEmpty(k - 1);
    }
  }

  function Instant(t: DateTime, micros: nat): (o: Outcome)
    requires ValidTime(t)
  {
    Time(Seconds(Number(t.date), t.hour, t.minute, t.second), micros)
  }

  /** Unix time, in numbers: 86400 seconds a day, 3600 an hour, 60 a minute. */
  function UnixTime(f: Fields): (s: int)
  {
    86400 * (GregorianYears(f.year) + GregorianDay(f.year, f.month, f.day)) + 3600 * f.hour + 60 * f.minute + f.second
  }

  lemma InstantIsUnixTime(t: DateTime, micros: nat)
    requires ValidTime(t)
    ensures Instant(t, micros).seconds == UnixTime(FieldsOfTime(t))
  {
    DaysAreGregorian(t.date.year, t.date.month, t.date.day);
  }

  /** Whatever the fields, in range or not, a time is their Unix time and the microseconds read. */
  lemma TimeIsUnixTime(f: Fields)
    ensures TimeOf(f).Time? ==> TimeOf(f) == Time(UnixTime(f), f.micros)
  {
    CountedDaysAre(f.year, f.month, f.day);
    if f.month <= 13 && f.day >= 1 {
      DaysAreGregorian(f.year, f.month, f.day);
    }
  }

  lemma PrintedIsUnixTime(t: DateTime)
    requires ValidTime(t)
    ensures TimestampOf(Print(t, [])) == Time(UnixTime(FieldsOfTime(t)), 0)
  {
    PrintParse(t, []);
    ScaledEmpty(6);
    InstantIsUnixTime(t, 0);
  }

  /** 2024-01-15T10:30:45Z is 1705314645. */
  lemma KnownTime(t: DateTime)
    requires t == DateTime(Date(2024, 1, 15), 10, 30, 45)
    ensures TimestampOf(Print(t, [])) == Time(1705314645, 0)
  {
    PrintedIsUnixTime(t);
  }

  /** 2000-02-29T00:00:00Z, a leap day, is 951782400. */
  lemma KnownLeapDay(t: DateTime)
    requires t == DateTime(Date(2000, 2, 29), 0, 0, 0)
    ensures TimestampOf(Print(t, [])) == Time(951782400, 0)
  {
    PrintedIsUnixTime(t);
  }

  lemma TimeOfValid(t: DateTime, micros: nat)
    requires ValidTime(t)
    ensures TimeOf(FieldsOfTime(t).(micros := micros)) == Instant(t, micros)
  {
    CountedDaysAre(t.date.year, t.date.month, t.date.day);
  }

  /**
   Printing then parsing gives the instant back, to the microsecond, if and only if the fraction is
   absent, has six digits or more, or is five zeros: one to four digits yield no time, and five are
   read as zero.
   */
  lemma PrintParse(t: DateTime, fraction: seq<byte>)
    requires ValidTime(t) && AllDigits(fraction)
    ensures TimestampOf(Print(t, fraction)) == Instant(t, TrueMicros(fraction))
            <==> |fraction| == 0 || |fraction| >= 6 || (|fraction| == 5 && Digits(fraction) == Some(0))
    ensures 1 <= |fraction| <= 4 ==> TimestampOf(Print(t, fraction)) == NoTime
    ensures |fraction| == 5 ==> TimestampOf(Print(t, fraction)) == Instant(t, 0)
  {
    var read := ReadFraction(fraction);
    ParsePrinted(FieldsOfTime(t), fraction);
    FractionReadRight(fraction);
    if read.Some? {
      TimeOfValid(t, read.value);
    }
  }

  lemma FractionReadRight(fraction: seq<byte>)
    requires AllDigits(fraction)
    ensures ReadFraction(fraction) == Some(TrueMicros(fraction))
            <==> |fraction| == 0 || |fraction| >= 6 || (|fraction| == 5 && Digits(fraction) == Some(0))
  {
    if fraction == [] {
      ScaledEmpty(6);
    } else if |fraction| == 5 {
      ScaledIsDigits(fraction, 5);
      assert fraction[..5] == fraction;
    } else if |fraction| >= 6 {
      ScaledIsDigits(fraction, 6);
    }
  }

  /** For every text: it panics exactly if its fields are numbers, and the month is 14 or above or the day is 0. */
  lemma PanicsIff(text: seq<byte>)
    ensures TimestampOf(text) == Panic <==> OutOfTable(text)
  {
    var f := FieldsOf(text);
    if f.Some? {
      CountedDaysAre(f.value.year, f.value.month, f.value.day);
    }
  }

  lemma PrintedPanics(f: Fields)
    requires Printable(f) && (f.month >= 14 || f.day == 0)
    ensures TimestampOf(PrintFields(f, [])) == Panic
  {
    ParsePrinted(f, []);
    CountedDaysAre(f.year, f.month, f.day);
  }

  /** 2024-14-01T00:00:00Z and 2024-01-00T00:00:00Z panic. */
  lemma PanickingTexts()
    ensures TimestampOf(PrintFields(Fields(2024, 14, 1, 0, 0, 0, 0), [])) == Panic
    ensures TimestampOf(PrintFields(Fields(2024, 1, 0, 0, 0, 0, 0), [])) == Panic
  {
    PrintedPanics(Fields(2024, 14, 1, 0, 0, 0, 0));
    PrintedPanics(Fields(2024, 1, 0, 0, 0, 0, 0));
  }

  // ----- order -----

  predicate EarlierClock(a: DateTime, b: DateTime) {
    a.hour < b.hour || (a.hour == b.hour && (a.minute < b.minute || (a.minute == b.minute && a.second < b.second)))
  }

  /** Field by field, most significant first. */
  predicate Earlier(a: DateTime, b: DateTime) {
    Before(a.date, b.date) || (a.date == b.date && EarlierClock(a, b))
  }

  lemma ClockWithinDay(t: DateTime)
    requires ValidTime(t)
    ensures t.hour * 3600 + t.minute * 60 + t.second < 86400
  {
  }

  /** The order of times of day and dates is the order of the seconds. */
  lemma EarlierInSeconds(a: DateTime, b: DateTime)
    requires ValidTime(a) && ValidTime(b) && Earlier(a, b)
    ensures Seconds(Number(a.date), a.hour, a.minute, a.second) < Seconds(Number(b.date), b.hour, b.minute, b.second)
  {
    ClockWithinDay(a);
    if Before(a.date, b.date) {
      NumberIsMonotone(a.date, b.date);
    }
  }
}
