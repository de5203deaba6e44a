/** The timestamp parser of the script verifier. It works on the bytes of the text. */
module Rfc3339 {
  import opened Wrappers
  import opened Bytes
  import opened Calendar

  function B(c: char): byte
    requires c < 128 as char
  {
    c as int
  }

  predicate IsDigit(b: byte) {
    B('0') <= b <= B('9')
  }

  predicate AllDigits(text: seq<byte>) {
    forall i | 0 <= i < |text| :: IsDigit(text[i])
  }

  /** A position where a character starts, or the end of the text. */
  predicate IsCharBoundary(text: seq<byte>, index: nat) {
    index == |text| || (index < |text| && !(0x80 <= text[index] < 0xC0))
  }

  /** A slice of the text, absent when it leaves the text or cuts a character. */
  function Get(text: seq<byte>, start: nat, end: nat): Option<seq<byte>> {
    if start <= end <= |text| && IsCharBoundary(text, start) && IsCharBoundary(text, end)
    then Some(text[start..end])
    else None
  }

  function DigitsValue(text: seq<byte>): nat
    requires AllDigits(text)
  {
    if text == [] then 0
    else 10 * DigitsValue(text[..|text| - 1]) + (text[|text| - 1] - B('0'))
  }

  /** `str::parse::<i32>`: an optional sign, then at least one digit, within 32 bits. */
  function ParseI32(text: seq<byte>): Option<int> {
    var signed := text != [] && text[0] in {B('+'), B('-')};
    var digits := if signed then text[1..] else text;
    if digits == [] || !AllDigits(digits) then None
    else
      var magnitude: int := DigitsValue(digits);
      var value := if signed && text[0] == B('-') then -magnitude else magnitude;
      if -0x8000_0000 <= value < 0x8000_0000 then Some(value) else None
  }

  function ParseFixedI32(text: seq<byte>, start: nat, len: nat): Option<int> {
    var part :- Get(text, start, start + len);
    ParseI32(part)
  }

  function ParseFixedU32(text: seq<byte>, start: nat, len: nat): Option<int> {
    var part :- Get(text, start, start + len);
    if AllDigits(part) && part != [] && DigitsValue(part) < 0x1_0000_0000 then Some(DigitsValue(part)) else None
  }

  function ExpectByte(text: seq<byte>, index: nat, expected: byte): Option<()> {
    if index < |text| && text[index] == expected then Some(()) else None
  }

  /** The end of the run of digits that starts at `index`. */
  function SkipDigits(text: seq<byte>, index: nat): (end: nat)
    requires index <= |text|
    ensures index <= end <= |text|
    ensures AllDigits(text[index..end])
    ensures end < |text| ==> !IsDigit(text[end])
    decreases |text| - index
  {
    if index < |text| && IsDigit(text[index]) then SkipDigits(text, index + 1) else index
  }

  function SkipFraction(text: seq<byte>, index: nat): Option<nat>
    requires index <= |text|
  {
    if index < |text| && text[index] == B('.') then
      var end := SkipDigits(text, index + 1);
      if end == index + 1 then None else Some(end)
    else Some(index)
  }

  /** The offset in seconds and the position after it. */
  function ParseOffset(text: seq<byte>, index: nat): Option<(int, nat)> {
    if index >= |text| then None
    else if text[index] in {B('Z'), B('z')} then Some((0, index + 1))
    else if text[index] in {B('+'), B('-')} then
      var sign := if text[index] == B('+') then 1 else -1;
      var hour :- ParseFixedU32(text, index + 1, 2);
      var _ :- ExpectByte(text, index + 3, B(':'));
      var minute :- ParseFixedU32(text, index + 4, 2);
      if hour > 23 || minute > 59 then None
      else Some((sign * (hour * 3600 + minute * 60), index + 6))
    else None
  }

  /** The date fields, not yet checked against the calendar. */
  function ParseDate(text: seq<byte>): Option<Date>
  {
    var year :- ParseFixedI32(text, 0, 4);
    var _ :- ExpectByte(text, 4, B('-'));
    var month :- ParseFixedU32(text, 5, 2);
    var _ :- ExpectByte(text, 7, B('-'));
    var day :- ParseFixedU32(text, 8, 2);
    Some(Date(year, month, day))
  }

  datatype Clock = Clock(hour: int, minute: int, second: int) {
    predicate Valid() {
      0 <= hour <= 23 && 0 <= minute <= 59 && 0 <= second <= 59
    }

    function Seconds(): int {
      hour * 3600 + minute * 60 + second
    }
  }

  function ParseClock(text: seq<byte>): Option<Clock>
  {
    var hour :- ParseFixedU32(text, 11, 2);
    var _ :- ExpectByte(text, 13, B(':'));
    var minute :- ParseFixedU32(text, 14, 2);
    var _ :- ExpectByte(text, 16, B(':'));
    var second :- ParseFixedU32(text, 17, 2);
    Some(Clock(hour, minute, second))
  }

  /** The fixed part, up to and including the seconds. Second 60 is refused. */
  function ParseHead(text: seq<byte>): Option<(Date, Clock)> {
    if |text| < 20 then None
    else
      var date :- ParseDate(text);
      if text[10] !in {B('T'), B('t'), B(' ')} then None
      else
        var clock :- ParseClock(text);
        if date.month == 0 || date.month > 12 || date.day == 0
           || date.day > DaysInMonth(date.year, date.month)
           || clock.hour > 23 || clock.minute > 59 || clock.second > 59
        then None
        else Some((date, clock))
  }

  /** The part after the seconds: the offset in seconds, provided nothing follows it. */
  function ParseTail(text: seq<byte>): Option<int>
    requires |text| >= 20
  {
    var index :- SkipFraction(text, 19);
    var (offset, end) :- ParseOffset(text, index);
    if end != |text| then None else Some(offset)
  }

  function UnixSeconds(days: int, clock: Clock, offset: int): int {
    days * 86400 + clock.Seconds() - offset
  }

  /** What the parser computes, without its loop. */
  function Parse(text: seq<byte>): Option<int> {
    var (date, clock) :- ParseHead(text);
    var offset :- ParseTail(text);
    Some(UnixSeconds(DaysFromCivil(date), clock, offset))
  }

  /** The parser with its moving index. */
  method ParseRfc3339ToUnix(text: seq<byte>) returns (unix: Option<int>)
    ensures unix == Parse(text)
  {
    var head :- ParseHead(text);
    var (date, clock) := head;

    var index := 19;
    if text[index] == B('.') {
      index := index + 1;
      var start := index;
      while index < |text| && IsDigit(text[index])
        invariant start <= index <= |text|
        invariant SkipDigits(text, index) == SkipDigits(text, start)
      {
        index := index + 1;
      }
      if index == start {
        return None;
      }
    }
    assert SkipFraction(text, 19) == Some(index);

    var parsed :- ParseOffset(text, index);
    var (offset, end) := parsed;
    index := end;
    if index != |text| {
      return None;
    }
    assert ParseTail(text) == Some(offset);
    unix := Some(UnixSeconds(DaysFromCivil(date), clock, offset));
  }

  // ---- the texts the parser accepts, described by writing them ----------------------------

  /** The year field: four digits as section 5.6 of RFC 3339 has it, or a sign and three digits,
      which the integer parser lets through. */
  datatype YearField = Digits(n: int) | Plus(n: int) | Minus(n: int) {
    predicate Valid() {
      0 <= n && n <= if Digits? then 9999 else 999
    }

    function Value(): int {
      if Minus? then -n else n
    }

    function Text(): (text: seq<byte>)
      requires Valid()
      ensures |text| == 4
    {
      var last := [Digit(n / 100 % 10), Digit(n / 10 % 10), Digit(n % 10)];
      if Digits? then [Digit(n / 1000)] + last
      else if Plus? then [B('+')] + last
      else [B('-')] + last
    }
  }

  datatype Offset = Zulu(mark: byte) | Numeric(sign: byte, hour: int, minute: int) {
    predicate Valid() {
      if Zulu? then mark in {B('Z'), B('z')}
      else sign in {B('+'), B('-')} && 0 <= hour <= 23 && 0 <= minute <= 59
    }

    function Seconds(): int {
      if Zulu? then 0
      else if sign == B('+') then hour * 3600 + minute * 60
      else -(hour * 3600 + minute * 60)
    }

    function Text(): seq<byte>
      requires Valid()
    {
      if Zulu? then [mark]
      else [sign, Digit(hour / 10), Digit(hour % 10), B(':'), Digit(minute / 10), Digit(minute % 10)]
    }
  }

  function Digit(n: int): (b: byte)
    requires 0 <= n <= 9
    ensures IsDigit(b)
  {
    B('0') + n
  }

  datatype Timestamp = Timestamp(
    year: YearField, month: int, day: int, separator: byte,
    clock: Clock, fraction: Option<seq<byte>>, offset: Offset)
  {
    function Day(): Date {
      Date(year.Value(), month, day)
    }

    predicate Valid() {
      && year.Valid() && Day().Valid() && separator in {B('T'), B('t'), B(' ')}
      && clock.Valid()
      && (fraction.Some? ==> fraction.value != [] && AllDigits(fraction.value))
      && offset.Valid()
    }

    function DateText(): (text: seq<byte>)
      requires Valid()
      ensures |text| == 10
    {
      year.Text() + [B('-'), Digit(month / 10), Digit(month % 10), B('-'), Digit(day / 10), Digit(day % 10)]
    }

    function ClockText(): (text: seq<byte>)
      requires Valid()
      ensures |text| == 8
    {
      [Digit(clock.hour / 10), Digit(clock.hour % 10), B(':'),
       Digit(clock.minute / 10), Digit(clock.minute % 10), B(':'),
       Digit(clock.second / 10), Digit(clock.second % 10)]
    }

    function FractionText(): seq<byte> {
      if fraction.Some? then [B('.')] + fraction.value else []
    }

    function Text(): seq<byte>
      requires Valid()
    {
      DateText() + [separator] + ClockText() + FractionText() + offset.Text()
    }

    /** The reading of the local clock, in seconds: whole days are counted on the calendar. */
    ghost function LocalSeconds(): int
      requires Valid()
    {
      CountedDays(Day()) * 86400 + clock.hour * 3600 + clock.minute * 60 + clock.second
    }

    /** Seconds since 1970-01-01T00:00:00Z. The fraction does not enter. */
    ghost function Instant(): int
      requires Valid()
    {
      LocalSeconds() - offset.Seconds()
    }
  }

  // ---- both directions --------------------------------------------------------------------

  lemma TwoDigits(text: seq<byte>, start: nat, n: int)
    requires start + 2 <= |text| && IsCharBoundary(text, start + 2)
    requires 0 <= n <= 99 && text[start] == Digit(n / 10) && text[start + 1] == Digit(n % 10)
    ensures ParseFixedU32(text, start, 2) == Some(n)
  {
    var part := text[start..start + 2];
    assert part[..1][..0] == [];
    assert DigitsValue(part[..1]) == n / 10;
  }

  lemma TwoDigitsBack(text: seq<byte>, start: nat) returns (n: int)
    requires ParseFixedU32(text, start, 2).Some?
    ensures 0 <= n <= 99 && ParseFixedU32(text, start, 2) == Some(n)
    ensures start + 2 <= |text| && text[start] == Digit(n / 10) && text[start + 1] == Digit(n % 10)
  {
    var part := text[start..start + 2];
    assert IsDigit(part[0]) && IsDigit(part[1]);
    n := 10 * (part[0] - B('0')) + (part[1] - B('0'));
    TwoDigits(text, start, n);
  }

  lemma ThreeDigits(text: seq<byte>)
    requires |text| == 3 && AllDigits(text)
    ensures DigitsValue(text) == 100 * (text[0] - B('0')) + 10 * (text[1] - B('0')) + (text[2] - B('0'))
  {
    assert text[..2][..1][..0] == [];
    assert DigitsValue(text[..2][..1]) == text[0] - B('0');
    assert DigitsValue(text[..2]) == 10 * (text[0] - B('0')) + (text[1] - B('0'));
  }

  lemma FourDigits(text: seq<byte>)
    requires |text| == 4 && AllDigits(text)
    ensures DigitsValue(text) == 1000 * (text[0] - B('0')) + 100 * (text[1] - B('0'))
                                 + 10 * (text[2] - B('0')) + (text[3] - B('0'))
  {
    ThreeDigits(text[..3]);
  }

  lemma DecimalPlaces(n: int)
    requires 0 <= n <= 9999
    ensures n == 1000 * (n / 1000) + 100 * (n / 100 % 10) + 10 * (n / 10 % 10) + n % 10
    ensures 0 <= n / 1000 <= 9 && (n <= 999 ==> n / 1000 == 0)
  {
    assert n == 10 * (n / 10) + n % 10 && n / 10 == 10 * (n / 100) + n / 10 % 10;
    assert n / 100 == 10 * (n / 1000) + n / 100 % 10;
  }

  lemma DecimalPlacesBack(a: int, b: int, c: int, d: int, n: int)
    requires 0 <= a <= 9 && 0 <= b <= 9 && 0 <= c <= 9 && 0 <= d <= 9
    requires n == 1000 * a + 100 * b + 10 * c + d
    ensures n / 1000 == a && n / 100 % 10 == b && n / 10 % 10 == c && n % 10 == d
  {
    assert n / 100 == 10 * a + b;
    assert n / 10 == 100 * a + 10 * b + c;
  }

  lemma YearParses(year: YearField)
    requires year.Valid()
    ensures ParseI32(year.Text()) == Some(year.Value())
  {
    var text := year.Text();
    DecimalPlaces(year.n);
    if year.Digits? {
      FourDigits(text);
    } else {
      var digits := text[1..];
      assert digits == [Digit(year.n / 100 % 10), Digit(year.n / 10 % 10), Digit(year.n % 10)];
      ThreeDigits(digits);
    }
  }

  lemma ThreeDigitsBack(text: seq<byte>)
    requires |text| == 3 && AllDigits(text)
    ensures var n := DigitsValue(text);
      n <= 999 && text == [Digit(n / 100 % 10), Digit(n / 10 % 10), Digit(n % 10)]
  {
    ThreeDigits(text);
    DecimalPlacesBack(0, text[0] - B('0'), text[1] - B('0'), text[2] - B('0'), DigitsValue(text));
  }

  lemma FourDigitsBack(text: seq<byte>)
    requires |text| == 4 && AllDigits(text)
    ensures var n := DigitsValue(text);
      n <= 9999 && text == [Digit(n / 1000), Digit(n / 100 % 10), Digit(n / 10 % 10), Digit(n % 10)]
  {
    FourDigits(text);
    DecimalPlacesBack(text[0] - B('0'), text[1] - B('0'), text[2] - B('0'), text[3] - B('0'), DigitsValue(text));
  }

  lemma YearParsesBack(text: seq<byte>) returns (year: YearField)
    requires |text| == 4 && ParseI32(text).Some?
    ensures year.Valid() && year.Text() == text && ParseI32(text) == Some(year.Value())
  {
    if text[0] in {B('+'), B('-')} {
      var digits := text[1..];
      ThreeDigitsBack(digits);
      year := if text[0] == B('+') then Plus(DigitsValue(digits)) else Minus(DigitsValue(digits));
      assert text == [text[0]] + digits;
    } else {
      FourDigitsBack(text);
      year := Digits(DigitsValue(text));
    }
  }

  lemma {:induction false} DigitsSkipped(text: seq<byte>, index: nat, end: nat)
    requires index <= end <= |text| && AllDigits(text[index..end])
    requires end < |text| ==> !IsDigit(text[end])
    ensures SkipDigits(text, index) == end
    decreases end - index
  {
    if index < end {
      assert text[index] == text[index..end][0];
      assert text[index + 1..end] == text[index..end][1..];
      DigitsSkipped(text, index + 1, end);
    }
  }

  lemma OffsetParses(text: seq<byte>, index: nat, offset: Offset)
    requires offset.Valid() && index <= |text| && text[index..] == offset.Text()
    ensures ParseOffset(text, index) == Some((offset.Seconds(), |text|))
  {
    var tail := text[index..];
    assert forall i | 0 <= i < |tail| :: text[index + i] == tail[i];
    if offset.Numeric? {
      assert text[index] == offset.sign && text[index + 3] == B(':');
      assert text[index + 1] == Digit(offset.hour / 10) && text[index + 2] == Digit(offset.hour % 10);
      assert text[index + 4] == Digit(offset.minute / 10) && text[index + 5] == Digit(offset.minute % 10);
      TwoDigits(text, index + 1, offset.hour);
      TwoDigits(text, index + 4, offset.minute);
    } else {
      assert text[index] == offset.mark;
    }
  }

  lemma OffsetParsesBack(text: seq<byte>, index: nat) returns (offset: Offset)
    requires ParseOffset(text, index).Some? && ParseOffset(text, index).value.1 == |text|
    ensures offset.Valid() && index <= |text| && offset.Text() == text[index..]
    ensures offset.Seconds() == ParseOffset(text, index).value.0
  {
    if text[index] in {B('Z'), B('z')} {
      offset := Zulu(text[index]);
    } else {
      var hour := TwoDigitsBack(text, index + 1);
      var minute := TwoDigitsBack(text, index + 4);
      offset := Numeric(text[index], hour, minute);
    }
  }

  lemma DateParses(t: Timestamp, text: seq<byte>)
    requires t.Valid() && |text| >= 11 && text[..10] == t.DateText() && IsCharBoundary(text, 10)
    ensures ParseDate(text) == Some(t.Day())
  {
    var d := t.DateText();
    assert forall i | 0 <= i < 10 :: text[i] == d[i];
    assert text[0..4] == t.year.Text();
    YearParses(t.year);
    TwoDigits(text, 5, t.month);
    TwoDigits(text, 8, t.day);
  }

  lemma ClockParses(t: Timestamp, text: seq<byte>)
    requires t.Valid() && |text| >= 20 && text[11..19] == t.ClockText() && IsCharBoundary(text, 19)
    ensures ParseClock(text) == Some(t.clock)
  {
    var c := t.ClockText();
    assert forall i | 0 <= i < 8 :: text[11 + i] == text[11..19][i] == c[i];
    assert text[11] == c[0] && text[12] == c[1] && text[13] == c[2] && text[14] == c[3];
    assert text[15] == c[4] && text[16] == c[5] && text[17] == c[6] && text[18] == c[7];
    TwoDigits(text, 11, t.clock.hour);
    TwoDigits(text, 14, t.clock.minute);
    TwoDigits(text, 17, t.clock.second);
  }

  lemma HeadParses(t: Timestamp, text: seq<byte>)
    requires t.Valid() && |text| >= 20 && IsCharBoundary(text, 19)
    requires text[..10] == t.DateText() && text[10] == t.separator && text[11..19] == t.ClockText()
    ensures ParseHead(text) == Some((t.Day(), t.clock))
  {
    DateParses(t, text);
    ClockParses(t, text);
  }

  lemma DateParsesBack(text: seq<byte>) returns (year: YearField, month: int, day: int)
    requires |text| >= 20 && ParseDate(text).Some?
    ensures year.Valid() && 0 <= month <= 99 && 0 <= day <= 99
    ensures ParseDate(text) == Some(Date(year.Value(), month, day))
    ensures text[..10] == year.Text() + [B('-'), Digit(month / 10), Digit(month % 10),
                                         B('-'), Digit(day / 10), Digit(day % 10)]
  {
    year := YearParsesBack(text[0..4]);
    month := TwoDigitsBack(text, 5);
    day := TwoDigitsBack(text, 8);
    assert text[..10] == text[0..4] + text[4..10];
    assert text[4..10] == [text[4], text[5], text[6], text[7], text[8], text[9]];
  }

  lemma ClockParsesBack(text: seq<byte>) returns (clock: Clock)
    requires |text| >= 20 && ParseClock(text).Some?
    ensures 0 <= clock.hour <= 99 && 0 <= clock.minute <= 99 && 0 <= clock.second <= 99
    ensures ParseClock(text) == Some(clock)
    ensures text[11..19] == [Digit(clock.hour / 10), Digit(clock.hour % 10), B(':'),
                             Digit(clock.minute / 10), Digit(clock.minute % 10), B(':'),
                             Digit(clock.second / 10), Digit(clock.second % 10)]
  {
    var hour := TwoDigitsBack(text, 11);
    var minute := TwoDigitsBack(text, 14);
    var second := TwoDigitsBack(text, 17);
    clock := Clock(hour, minute, second);
    assert text[11..19] == [text[11], text[12], text[13], text[14], text[15], text[16], text[17], text[18]];
  }

  lemma FractionSkipped(text: seq<byte>, fraction: Option<seq<byte>>, index: nat)
    requires 19 <= index < |text| && !IsDigit(text[index]) && (fraction.None? ==> text[19] != B('.'))
    requires fraction.Some? ==> fraction.value != [] && AllDigits(fraction.value)
    requires text[19..index] == if fraction.Some? then [B('.')] + fraction.value else []
    ensures SkipFraction(text, 19) == Some(index)
  {
    if fraction.Some? {
      var field := text[19..index];
      assert text[19] == field[0];
      assert text[20..index] == field[1..] == fraction.value;
      DigitsSkipped(text, 20, index);
    }
  }

  lemma TailParses(t: Timestamp, text: seq<byte>)
    requires t.Valid() && |text| >= 20 && text[19..] == t.FractionText() + t.offset.Text()
    ensures ParseTail(text) == Some(t.offset.Seconds()) && IsCharBoundary(text, 19)
  {
    var tail, index := text[19..], 19 + |t.FractionText()|;
    assert text[19] == tail[0] && text[index] == tail[index - 19] == t.offset.Text()[0];
    assert text[index..] == tail[index - 19..] == t.offset.Text();
    assert text[19..index] == tail[..index - 19] == t.FractionText();
    FractionSkipped(text, t.fraction, index);
    OffsetParses(text, index, t.offset);
  }

  lemma TailParsesBack(text: seq<byte>) returns (fraction: Option<seq<byte>>, offset: Offset)
    requires |text| >= 20 && ParseTail(text).Some?
    ensures fraction.Some? ==> fraction.value != [] && AllDigits(fraction.value)
    ensures offset.Valid() && ParseTail(text) == Some(offset.Seconds())
    ensures text[19..] == (if fraction.Some? then [B('.')] + fraction.value else []) + offset.Text()
  {
    var index := SkipFraction(text, 19).value;
    fraction := if index == 19 then None else Some(text[20..index]);
    offset := OffsetParsesBack(text, index);
    assert text[19..] == text[19..index] + text[index..];
  }

  lemma TextPieces(t: Timestamp)
    requires t.Valid()
    ensures var text := t.Text();
      && |text| >= 20 && text[..10] == t.DateText() && text[10] == t.separator
      && text[11..19] == t.ClockText() && text[19..] == t.FractionText() + t.offset.Text()
  {
    var date, clock, tail := t.DateText(), t.ClockText(), t.FractionText() + t.offset.Text();
    assert t.Text() == date + [t.separator] + clock + tail;
  }

  lemma PiecesParse(t: Timestamp, text: seq<byte>)
    requires t.Valid() && text == t.Text()
    ensures ParseHead(text) == Some((t.Day(), t.clock)) && ParseTail(text) == Some(t.offset.Seconds())
  {
    TextPieces(t);
    TailParses(t, text);
    HeadParses(t, text);
  }

  lemma PartsDecide(text: seq<byte>, date: Date, clock: Clock, offset: int)
    requires ParseHead(text) == Some((date, clock)) && ParseTail(text) == Some(offset) && date.Valid()
    ensures Parse(text).Some?
    ensures Parse(text).value
         == CountedDays(date) * 86400 + clock.hour * 3600 + clock.minute * 60 + clock.second - offset
  {
    ClosedFormCountsDays(date);
  }

  lemma PiecesDecide(t: Timestamp, text: seq<byte>)
    requires t.Valid() && ParseHead(text) == Some((t.Day(), t.clock)) && ParseTail(text) == Some(t.offset.Seconds())
    ensures Parse(text) == Some(t.Instant())
  {
    PartsDecide(text, t.Day(), t.clock, t.offset.Seconds());
  }

  /** Every text that writes a valid timestamp parses to that timestamp's instant. */
  lemma WrittenTextsParse(t: Timestamp)
    requires t.Valid()
    ensures Parse(t.Text()) == Some(t.Instant())
  {
    PiecesParse(t, t.Text());
    PiecesDecide(t, t.Text());
  }

  lemma Reassembled(text: seq<byte>, date: seq<byte>, clock: seq<byte>, fraction: seq<byte>, offset: seq<byte>)
    requires |text| >= 19 && text[..10] == date && text[11..19] == clock && text[19..] == fraction + offset
    ensures text == date + [text[10]] + clock + fraction + offset
  {
    assert text == text[..10] + [text[10]] + text[11..19] + text[19..];
    assert date + [text[10]] + clock + fraction + offset == date + [text[10]] + clock + (fraction + offset);
  }

  /** Every text that parses writes a valid timestamp, and the result is that timestamp's instant. */
  lemma ParsedTextsAreWritten(text: seq<byte>) returns (t: Timestamp)
    requires Parse(text).Some?
    ensures t.Valid() && t.Text() == text && Parse(text) == Some(t.Instant())
  {
    t := WrittenBy(text);
    WrittenTextsParse(t);
  }

  lemma WrittenBy(text: seq<byte>) returns (t: Timestamp)
    requires ParseHead(text).Some? && ParseTail(text).Some?
    ensures t.Valid() && t.Text() == text
  {
    var year, month, day := DateParsesBack(text);
    var clock := ClockParsesBack(text);
    var fraction, offset := TailParsesBack(text);
    t := Timestamp(year, month, day, text[10], clock, fraction, offset);
    assert t.Valid();
    assert text[..10] == t.DateText();
    assert text[11..19] == t.ClockText();
    Reassembled(text, t.DateText(), t.ClockText(), t.FractionText(), t.offset.Text());
  }

  /** The parser accepts exactly the texts that write a valid timestamp. */
  lemma ParserAcceptsExactlyWrittenTexts(text: seq<byte>)
    ensures Parse(text).Some? <==> exists t: Timestamp :: t.Valid() && t.Text() == text
    ensures forall t: Timestamp :: t.Valid() && t.Text() == text ==> Parse(text) == Some(t.Instant())
  {
    if Parse(text).Some? {
      var t := ParsedTextsAreWritten(text);
    }
    forall t: Timestamp | t.Valid() && t.Text() == text
      ensures Parse(text) == Some(t.Instant())
    {
      WrittenTextsParse(t);
    }
  }

  /** Two texts parse equal exactly when their local clocks differ by as much as their offsets do,
      however the year, separator, fraction or zone mark are written. */
  lemma EqualResultsAreEqualInstants(a: Timestamp, b: Timestamp)
    requires a.Valid() && b.Valid()
    ensures Parse(a.Text()) == Parse(b.Text())
       <==> a.LocalSeconds() - b.LocalSeconds() == a.offset.Seconds() - b.offset.Seconds()
  {
    WrittenTextsParse(a);
    WrittenTextsParse(b);
  }

  lemma DayRange(date: Date)
    requires date.Valid() && -999 <= date.year <= 9999
    ensures -1_100_000 < DaysFromCivil(date) < 3_000_000
  {
    ClosedFormIsFloor(date);
  }

  /** Whatever the input, a result stays far inside the 64-bit range. */
  lemma ResultsFit(text: seq<byte>)
    requires Parse(text).Some?
    ensures -100_000_000_000 < Parse(text).value < 300_000_000_000
  {
    var t := WrittenBy(text);
    WrittenTextsParse(t);
    DayRange(t.Day());
    ClosedFormCountsDays(t.Day());
    InstantRange(t);
  }

  lemma InstantRange(t: Timestamp)
    requires t.Valid() && -1_100_000 < CountedDays(t.Day()) < 3_000_000
    ensures -100_000_000_000 < t.Instant() < 300_000_000_000
  {
    assert 0 <= t.clock.Seconds() < 86400;
    assert -86400 < t.offset.Seconds() < 86400;
  }
}
