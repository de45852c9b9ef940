/**
 The order of timestamp texts and the order of the times they are read as (src/evt/render.rs,
 `parse_iso8601_timestamp`).
 */
module TimestampOrder {
  import opened Lexicographic
  import opened Bytes
  import opened Calendar
  import opened Timestamp

  const ZULU: byte := 0x5A

  // ----- digits -----

  /** Digit strings of one length are ordered as the numbers they denote. */
  lemma {:induction false} DigitsInOrder(a: seq<byte>, b: seq<byte>, k: nat)
    requires AllDigits(a) && AllDigits(b) && k <= |a| && k <= |b|
    ensures Below(a[..k], b[..k]) <==> Scaled(a, k) < Scaled(b, k)
    ensures a[..k] == b[..k] <==> Scaled(a, k) == Scaled(b, k)
  {
    if k > 0 {
      DigitsInOrder(a, b, k - 1);
      var x, y := a[k - 1], b[k - 1];
      assert a[..k] == a[..k - 1] + [x] && b[..k] == b[..k - 1] + [y];
      BelowConcat(a[..k - 1], b[..k - 1], [x], [y]);
      BelowSingle(x, y);
      SameSnoc(a[..k - 1], b[..k - 1], x, y);
    }
  }

  lemma SameSnoc(p: seq<byte>, q: seq<byte>, x: byte, y: byte)
    ensures p + [x] == q + [y] <==> p == q && x == y
  {
    if p + [x] == q + [y] {
      assert p == (p + [x])[..|p|] && q == (q + [y])[..|q|];
      assert x == (p + [x])[|p|] && y == (q + [y])[|q|];
    }
  }

  function Two(n: nat): (s: seq<byte>)
    requires n < 100
  {
    [Digit(n / 10), Digit(n % 10)]
  }

  function Four(n: nat): (s: seq<byte>)
    requires n < 10000
  {
    [Digit(n / 1000), Digit(n / 100 % 10), Digit(n / 10 % 10), Digit(n % 10)]
  }

  lemma TwoScaled(n: nat)
    requires n < 100
    ensures AllDigits(Two(n)) && Scaled(Two(n), 2) == n
  {
    assert Scaled(Two(n), 1) == 10 * Scaled(Two(n), 0) + n / 10;
  }

  lemma FourScaled(n: nat)
    requires n < 10000
    ensures AllDigits(Four(n)) && Scaled(Four(n), 4) == n
  {
    var s := Four(n);
    DecimalParts(n);
    assert Scaled(s, 1) == 10 * Scaled(s, 0) + n / 1000;
    assert Scaled(s, 2) == 10 * Scaled(s, 1) + n / 100 % 10;
    assert Scaled(s, 3) == 10 * Scaled(s, 2) + n / 10 % 10;
    assert Scaled(s, 4) == 10 * Scaled(s, 3) + n % 10;
  }

  lemma TwoInOrder(m: nat, n: nat)
    requires m < 100 && n < 100
    ensures Below(Two(m), Two(n)) <==> m < n
    ensures Two(m) == Two(n) <==> m == n
  {
    TwoScaled(m);
    TwoScaled(n);
    DigitsInOrder(Two(m), Two(n), 2);
    assert Two(m)[..2] == Two(m) && Two(n)[..2] == Two(n);
  }

  lemma FourInOrder(m: nat, n: nat)
    requires m < 10000 && n < 10000
    ensures Below(Four(m), Four(n)) <==> m < n
    ensures Four(m) == Four(n) <==> m == n
  {
    FourScaled(m);
    FourScaled(n);
    DigitsInOrder(Four(m), Four(n), 4);
    assert Four(m)[..4] == Four(m) && Four(n)[..4] == Four(n);
  }

  // ----- date and time of day -----

  /** A separator, two digits, and what follows them. */
  lemma FieldInOrder(separator: byte, m: nat, n: nat, x: seq<byte>, y: seq<byte>)
    requires m < 100 && n < 100
    ensures Below([separator] + (Two(m) + x), [separator] + (Two(n) + y)) <==> m < n || (m == n && Below(x, y))
    ensures [separator] + (Two(m) + x) == [separator] + (Two(n) + y) <==> m == n && x == y
  {
    TwoInOrder(m, n);
    BelowConcat([separator], [separator], Two(m) + x, Two(n) + y);
    BelowIrreflexive([separator]);
    BelowConcat(Two(m), Two(n), x, y);
    SameConcat([separator], [separator], Two(m) + x, Two(n) + y);
    SameConcat(Two(m), Two(n), x, y);
  }

  lemma SameConcat(p: seq<byte>, q: seq<byte>, x: seq<byte>, y: seq<byte>)
    requires |p| == |q|
    ensures p + x == q + y <==> p == q && x == y
  {
    if p + x == q + y {
      assert p == (p + x)[..|p|] && q == (q + y)[..|q|];
      assert x == (p + x)[|p|..] && y == (q + y)[|q|..];
    }
  }

  /** Hour, minute and second as they follow the date. */
  function ClockText(f: Fields): (s: seq<byte>)
    requires Printable(f)
  {
    [0x54] + (Two(f.hour) + ([0x3A] + (Two(f.minute) + ([0x3A] + (Two(f.second) + [])))))
  }

  function DateText(f: Fields): (s: seq<byte>)
    requires Printable(f)
  {
    [MINUS] + (Two(f.month) + ([MINUS] + (Two(f.day) + ClockText(f))))
  }

  lemma BaseIs(f: Fields)
    requires Printable(f)
    ensures PrintBase(f) == Four(f.year) + DateText(f)
  {
  }

  predicate ClockBefore(a: Fields, b: Fields) {
    a.hour < b.hour || (a.hour == b.hour && (a.minute < b.minute || (a.minute == b.minute && a.second < b.second)))
  }

  /** Field by field, most significant first. */
  predicate FieldsBefore(a: Fields, b: Fields) {
    || a.year < b.year
    || (a.year == b.year
        && (|| a.month < b.month
            || (a.month == b.month && (a.day < b.day || (a.day == b.day && ClockBefore(a, b))))))
  }

  lemma ClockInOrder(a: Fields, b: Fields)
    requires Printable(a) && Printable(b)
    ensures Below(ClockText(a), ClockText(b)) <==> ClockBefore(a, b)
    ensures ClockText(a) == ClockText(b) <==> a.hour == b.hour && a.minute == b.minute && a.second == b.second
  {
    var seconds, others := [0x3A] + (Two(a.second) + []), [0x3A] + (Two(b.second) + []);
    FieldInOrder(0x3A, a.second, b.second, [], []);
    FieldInOrder(0x3A, a.minute, b.minute, seconds, others);
    FieldInOrder(0x54, a.hour, b.hour, [0x3A] + (Two(a.minute) + seconds), [0x3A] + (Two(b.minute) + others));
  }

  /** The fixed-width date and time is ordered field by field. */
  lemma BaseInOrder(a: Fields, b: Fields)
    requires Printable(a) && Printable(b)
    ensures Below(PrintBase(a), PrintBase(b)) <==> FieldsBefore(a, b)
    ensures PrintBase(a) == PrintBase(b) <==> a == b.(micros := a.micros)
  {
    BaseIs(a);
    BaseIs(b);
    ClockInOrder(a, b);
    FieldInOrder(MINUS, a.day, b.day, ClockText(a), ClockText(b));
    FieldInOrder(MINUS, a.month, b.month, [MINUS] + (Two(a.day) + ClockText(a)), [MINUS] + (Two(b.day) + ClockText(b)));
    FourInOrder(a.year, b.year);
    BelowConcat(Four(a.year), Four(b.year), DateText(a), DateText(b));
    SameConcat(Four(a.year), Four(b.year), DateText(a), DateText(b));
  }

  // ----- fractions -----

  function Suffix(fraction: seq<byte>): (s: seq<byte>)
  {
    if fraction == [] then [ZULU] else [DOT] + fraction + [ZULU]
  }

  /** Fractions the parser reads right whatever their digits: none, or six digits and more. */
  predicate Readable(fraction: seq<byte>) {
    AllDigits(fraction) && (fraction == [] || |fraction| >= 6)
  }

  /** What of two fractions the parser does not see, or sees in the other order than the text shows it. */
  predicate Disagree(a: seq<byte>, b: seq<byte>)
    requires Readable(a) && Readable(b)
  {
    if a == [] then b != [] && TrueMicros(b) > 0
    else if b == [] then true
    else a[..6] == b[..6] && Below(a[6..] + [ZULU], b[6..] + [ZULU])
  }

  lemma SuffixInOrder(a: seq<byte>, b: seq<byte>)
    requires Readable(a) && Readable(b)
    ensures (Below(Suffix(a), Suffix(b)) <==> TrueMicros(a) < TrueMicros(b)) <==> !Disagree(a, b)
  {
    if a == [] || b == [] {
      EmptyFraction(a, b);
    } else {
      assert Suffix(a) == [DOT] + (a[..6] + (a[6..] + [ZULU])) && Suffix(b) == [DOT] + (b[..6] + (b[6..] + [ZULU]));
      BelowConcat([DOT], [DOT], a[..6] + (a[6..] + [ZULU]), b[..6] + (b[6..] + [ZULU]));
      BelowIrreflexive([DOT]);
      BelowConcat(a[..6], b[..6], a[6..] + [ZULU], b[6..] + [ZULU]);
      DigitsInOrder(a, b, 6);
    }
  }

  lemma EmptyFraction(a: seq<byte>, b: seq<byte>)
    requires Readable(a) && Readable(b) && (a == [] || b == [])
    ensures (Below(Suffix(a), Suffix(b)) <==> TrueMicros(a) < TrueMicros(b)) <==> !Disagree(a, b)
  {
    ScaledEmpty(6);
    BelowIrreflexive([ZULU]);
    if a != [] {
      assert Suffix(a)[0] == DOT;
    }
    if b != [] {
      assert Suffix(b)[0] == DOT;
    }
  }

  // ----- texts and times -----

  /** Strictly earlier, to the microsecond. */
  predicate TimeBefore(a: Outcome, b: Outcome) {
    a.Time? && b.Time? && (a.seconds < b.seconds || (a.seconds == b.seconds && a.micros < b.micros))
  }

  lemma EarlierIsFieldsBefore(a: DateTime, b: DateTime)
    requires ValidTime(a) && ValidTime(b)
    ensures FieldsBefore(FieldsOfTime(a), FieldsOfTime(b)) <==> Earlier(a, b)
    ensures Earlier(a, b) || a == b || Earlier(b, a)
  {
  }

  lemma SecondsInOrder(a: DateTime, b: DateTime)
    requires ValidTime(a) && ValidTime(b)
    ensures var x := Seconds(Number(a.date), a.hour, a.minute, a.second);
            var y := Seconds(Number(b.date), b.hour, b.minute, b.second);
            (x < y <==> Earlier(a, b)) && (x == y <==> a == b)
  {
    EarlierIsFieldsBefore(a, b);
    if Earlier(a, b) {
      EarlierInSeconds(a, b);
    } else if Earlier(b, a) {
      EarlierInSeconds(b, a);
    }
  }

  lemma TextsBelow(a: DateTime, fa: seq<byte>, b: DateTime, fb: seq<byte>)
    requires ValidTime(a) && ValidTime(b)
    ensures Below(Print(a, fa), Print(b, fb)) <==> Earlier(a, b) || (a == b && Below(Suffix(fa), Suffix(fb)))
  {
    var x, y := FieldsOfTime(a), FieldsOfTime(b);
    assert Print(a, fa) == PrintBase(x) + Suffix(fa) && Print(b, fb) == PrintBase(y) + Suffix(fb);
    BelowConcat(PrintBase(x), PrintBase(y), Suffix(fa), Suffix(fb));
    BaseInOrder(x, y);
    EarlierIsFieldsBefore(a, b);
  }

  /**
   For all valid times and all fractions, absent or of six digits and more: the order of the texts is the order
   of the times they are read as, exactly unless both are of one second and their fractions disagree.
   */
  lemma TextOrderIsTimeOrderIff(a: DateTime, fa: seq<byte>, b: DateTime, fb: seq<byte>)
    requires ValidTime(a) && ValidTime(b) && Readable(fa) && Readable(fb)
    ensures (Below(Print(a, fa), Print(b, fb)) <==> TimeBefore(TimestampOf(Print(a, fa)), TimestampOf(Print(b, fb))))
            <==> !(a == b && Disagree(fa, fb))
  {
    PrintParse(a, fa);
    PrintParse(b, fb);
    TextsBelow(a, fa, b, fb);
    SecondsInOrder(a, b);
    SuffixInOrder(fa, fb);
    if Earlier(a, b) {
      EarlierInSeconds(a, b);
    }
  }

  /** With six digits each, a text is lexicographically below another exactly if its time is strictly earlier. */
  lemma LaterIsLater(a: DateTime, fa: seq<byte>, b: DateTime, fb: seq<byte>)
    requires ValidTime(a) && ValidTime(b) && AllDigits(fa) && AllDigits(fb) && |fa| == 6 && |fb| == 6
    ensures Below(Print(a, fa), Print(b, fb)) <==> TimeBefore(TimestampOf(Print(a, fa)), TimestampOf(Print(b, fb)))
  {
    TextOrderIsTimeOrderIff(a, fa, b, fb);
    assert fa[6..] + [ZULU] == [ZULU] && fb[6..] + [ZULU] == [ZULU];
    BelowIrreflexive([ZULU]);
  }

  /** Beside a text without a fraction, one of the same second with a fraction is below it and yet not earlier. */
  lemma FractionSortsFirst(t: DateTime, fraction: seq<byte>)
    requires ValidTime(t) && Readable(fraction) && fraction != []
    ensures Below(Print(t, fraction), Print(t, []))
    ensures !TimeBefore(TimestampOf(Print(t, fraction)), TimestampOf(Print(t, [])))
  {
    TextsBelow(t, fraction, t, []);
    assert Suffix(fraction)[0] == DOT;
    TextOrderIsTimeOrderIff(t, fraction, t, []);
  }
}
