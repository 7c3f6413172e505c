/** Reading a timestamp string as an instant.

    Instants are whole seconds since 1970-01-01T00:00:00 (UTC for texts that
    carry an offset, naive otherwise). chrono's format-driven parser, the
    floating-point epoch reading are not modelled; they are the fields of
    `Chrono`. The prefix retries around chrono and the syslog and klog readers
    are written out on the UTF-8 bytes of the text, because they slice it at
    byte offsets. */
module Timestamp {
  import opened Common

  datatype Chrono = Chrono(
    /** chrono's `parse_from_str` with the format of the given index. */
    parseWithFormat: (seq<byte>, nat) -> Option<int>,
    /** The `f64` epoch-seconds reading. */
    parseFloatEpoch: seq<byte> -> Option<int>)

  /** The chrono formats tried, in order. */
  const FormatStrings: seq<string> := [
    "%Y-%m-%dT%H:%M:%S%.f%:z", "%Y-%m-%dT%H:%M:%S%.f%#z", "%Y-%m-%dT%H:%M:%S%:z",
    "%Y-%m-%dT%H:%M:%S%#z", "%Y-%m-%dT%H:%M:%SZ", "%Y-%m-%dT%H:%M:%S%.fZ",
    "%Y-%m-%dT%H:%M:%S%.f", "%Y-%m-%dT%H:%M:%S", "%Y-%m-%d %H:%M:%S%.f",
    "%Y-%m-%d %H:%M:%S,%f", "%Y-%m-%d %H:%M:%S", "%d/%b/%Y:%H:%M:%S %z"]

  const FormatCount: nat := 12

  /** Formats with a UTC offset field are parsed as offset date-times. */
  predicate HasOffset(idx: nat)
    requires idx < FormatCount
  {
    var f := FormatStrings[idx];
    Contains(f, "%z") || Contains(f, "%:z") || Contains(f, "%#z")
  }

  /** The offset formats by index: the first four and the last. */
  predicate OffsetFormat(idx: nat) {
    idx <= 3 || idx == 11
  }

  /** The index table agrees with the containment test on the format
      strings. */
  lemma OffsetFormatsByIndex(idx: nat)
    requires idx < FormatCount
    ensures HasOffset(idx) <==> OffsetFormat(idx)
  {
    var f := FormatStrings[idx];
    if idx == 0 {
      assert OccursAt(f, "%:z", 20);
    } else if idx == 1 {
      assert OccursAt(f, "%#z", 20);
    } else if idx == 2 {
      assert OccursAt(f, "%:z", 17);
    } else if idx == 3 {
      assert OccursAt(f, "%#z", 17);
    } else if idx == 11 {
      assert OccursAt(f, "%z", 18);
    } else {
      assert 'z' !in f;
      LacksLetter(f, "%z", 1);
      LacksLetter(f, "%:z", 2);
      LacksLetter(f, "%#z", 2);
    }
  }

  /** A text without the letter at position `k` of `p` does not contain `p`. */
  lemma LacksLetter(s: string, p: string, k: nat)
    requires k < |p| && p[k] !in s
    ensures !Contains(s, p)
  {
  }

  /** The prefix lengths retried after a full parse fails: 20..40 bytes for
      offset formats, 19..35 for naive ones. */
  function PrefixLow(idx: nat): nat
    requires idx < FormatCount
  {
    if OffsetFormat(idx) then 20 else 19
  }

  function PrefixHigh(idx: nat): nat
    requires idx < FormatCount
  {
    if OffsetFormat(idx) then 40 else 35
  }

  /** The outcome of code that may panic. */
  datatype Outcome = Parsed(t: int) | NoParse | Panic

  function Lift(r: Option<int>): Outcome {
    match r
    case Some(t) => Parsed(t)
    case None => NoParse
  }

  // ---------------------------------------------------------------------------
  // One format, with prefix retries
  // ---------------------------------------------------------------------------

  /** The prefix retries as written: byte lengths `end, end-1, .., low`, each
      sliced with `&raw[..end]`, which panics off a character boundary. */
  function PrefixScanAsWritten(ch: Chrono, b: seq<byte>, idx: nat, end: nat): Outcome
    requires idx < FormatCount && end <= |b|
    decreases end
  {
    if end < PrefixLow(idx) then NoParse
    else if !CharBoundary(b, end) then Panic
    else
      match ch.parseWithFormat(b[..end], idx)
      case Some(t) => Parsed(t)
      case None => PrefixScanAsWritten(ch, b, idx, end - 1)
  }

  /** One format as written: the whole text, then its prefixes. */
  function WithFormatAsWritten(ch: Chrono, b: seq<byte>, idx: nat): Outcome
    requires idx < FormatCount
  {
    match ch.parseWithFormat(b, idx)
    case Some(t) => Parsed(t)
    case None => PrefixScanAsWritten(ch, b, idx, Min(|b|, PrefixHigh(idx)))
  }

  /** The prefix retries, skipping lengths that would cut a character. */
  function PrefixScan(ch: Chrono, b: seq<byte>, idx: nat, end: nat): (r: Option<int>)
    requires idx < FormatCount && end <= |b|
    ensures r.Some? ==> PrefixLow(idx) <= end
    decreases end
  {
    if end < PrefixLow(idx) then None
    else if CharBoundary(b, end) && ch.parseWithFormat(b[..end], idx).Some? then
      ch.parseWithFormat(b[..end], idx)
    else PrefixScan(ch, b, idx, end - 1)
  }

  /** `e` is the longest prefix length in `low..end`, ending on a character
      boundary, that chrono reads. */
  predicate LongestReadablePrefix(ch: Chrono, b: seq<byte>, idx: nat, end: nat, e: nat)
    requires idx < FormatCount && end <= |b|
  {
    && PrefixLow(idx) <= e <= end && CharBoundary(b, e) && ch.parseWithFormat(b[..e], idx).Some?
    && forall e': nat :: e < e' <= end && CharBoundary(b, e') ==> ch.parseWithFormat(b[..e'], idx).None?
  }

  /** A prefix the scan finds is the longest one in the retry range, ending
      on a character boundary, that chrono reads. */
  lemma {:induction false} PrefixScanFound(ch: Chrono, b: seq<byte>, idx: nat, end: nat)
    requires idx < FormatCount && end <= |b|
    requires PrefixScan(ch, b, idx, end).Some?
    ensures exists e: nat :: LongestReadablePrefix(ch, b, idx, end, e)
                        && ch.parseWithFormat(b[..e], idx) == PrefixScan(ch, b, idx, end)
    decreases end
  {
    if CharBoundary(b, end) && ch.parseWithFormat(b[..end], idx).Some? {
      assert LongestReadablePrefix(ch, b, idx, end, end);
    } else {
      PrefixScanFound(ch, b, idx, end - 1);
      var e: nat :| LongestReadablePrefix(ch, b, idx, end - 1, e)
                && ch.parseWithFormat(b[..e], idx) == PrefixScan(ch, b, idx, end - 1);
      assert LongestReadablePrefix(ch, b, idx, end, e);
    }
  }

  /** The scan finds nothing only when chrono reads none of the prefixes in
      the retry range that end on a character boundary. */
  lemma {:induction false} PrefixScanNone(ch: Chrono, b: seq<byte>, idx: nat, end: nat)
    requires idx < FormatCount && end <= |b|
    requires PrefixScan(ch, b, idx, end).None?
    ensures forall e :: (PrefixLow(idx) <= e <= end && CharBoundary(b, e))
                        ==> ch.parseWithFormat(b[..e], idx).None?
    decreases end
  {
    if end >= PrefixLow(idx) {
      PrefixScanNone(ch, b, idx, end - 1);
    }
  }

  /** One format: the whole text, else the longest prefix within the retry
      range that ends on a character boundary and parses. */
  function WithFormat(ch: Chrono, b: seq<byte>, idx: nat): (r: Option<int>)
    requires idx < FormatCount
    ensures ch.parseWithFormat(b, idx).Some? ==> r == ch.parseWithFormat(b, idx)
  {
    match ch.parseWithFormat(b, idx)
    case Some(t) => Some(t)
    case None => PrefixScan(ch, b, idx, Min(|b|, PrefixHigh(idx)))
  }

  /** A format reads the text exactly when chrono reads the whole text or a
      prefix in the retry range that ends on a character boundary; after the
      whole text, the longest such prefix decides the instant. */
  lemma WithFormatMeaning(ch: Chrono, b: seq<byte>, idx: nat)
    requires idx < FormatCount
    ensures WithFormat(ch, b, idx).Some? ==>
              WithFormat(ch, b, idx) == ch.parseWithFormat(b, idx)
              || (ch.parseWithFormat(b, idx).None?
                  && exists e: nat :: LongestReadablePrefix(ch, b, idx, Min(|b|, PrefixHigh(idx)), e)
                                 && ch.parseWithFormat(b[..e], idx) == WithFormat(ch, b, idx))
    ensures WithFormat(ch, b, idx).None? ==>
              ch.parseWithFormat(b, idx).None?
              && forall e :: (PrefixLow(idx) <= e <= Min(|b|, PrefixHigh(idx)) && CharBoundary(b, e))
                             ==> ch.parseWithFormat(b[..e], idx).None?
  {
    if ch.parseWithFormat(b, idx).None? {
      var end := Min(|b|, PrefixHigh(idx));
      if PrefixScan(ch, b, idx, end).Some? {
        PrefixScanFound(ch, b, idx, end);
      } else {
        PrefixScanNone(ch, b, idx, end);
      }
    }
  }

  /** Try one format, then its prefixes from the longest down. */
  method TryParseWithFormat(ch: Chrono, b: seq<byte>, idx: nat) returns (r: Option<int>)
    requires idx < FormatCount
    ensures r == WithFormat(ch, b, idx)
  {
    r := ch.parseWithFormat(b, idx);
    if r.Some? {
      return;
    }
    var end: nat := Min(|b|, PrefixHigh(idx));
    while end >= PrefixLow(idx)
      invariant end <= |b| && r.None?
      invariant PrefixScan(ch, b, idx, end) == PrefixScan(ch, b, idx, Min(|b|, PrefixHigh(idx)))
      decreases end
    {
      if CharBoundary(b, end) {
        r := ch.parseWithFormat(b[..end], idx);
        if r.Some? {
          return;
        }
      }
      end := end - 1;
    }
  }

  lemma {:induction false} PrefixScanAgrees(ch: Chrono, b: seq<byte>, idx: nat, end: nat)
    requires idx < FormatCount && end <= |b|
    requires PrefixScanAsWritten(ch, b, idx, end) != Panic
    ensures PrefixScanAsWritten(ch, b, idx, end) == Lift(PrefixScan(ch, b, idx, end))
    decreases end
  {
    if end >= PrefixLow(idx) && ch.parseWithFormat(b[..end], idx).None? {
      PrefixScanAgrees(ch, b, idx, end - 1);
    }
  }

  /** Where the code as written does not panic, it computes `WithFormat`. */
  lemma WithFormatAgrees(ch: Chrono, b: seq<byte>, idx: nat)
    requires idx < FormatCount && WithFormatAsWritten(ch, b, idx) != Panic
    ensures WithFormatAsWritten(ch, b, idx) == Lift(WithFormat(ch, b, idx))
  {
    if ch.parseWithFormat(b, idx).None? {
      PrefixScanAgrees(ch, b, idx, Min(|b|, PrefixHigh(idx)));
    }
  }

  predicate AsciiBytes(b: seq<byte>) { forall i :: 0 <= i < |b| ==> b[i] < 0x80 }

  lemma {:induction false} PrefixScanAsciiNoPanic(ch: Chrono, b: seq<byte>, idx: nat, end: nat)
    requires idx < FormatCount && end <= |b| && AsciiBytes(b)
    ensures PrefixScanAsWritten(ch, b, idx, end) != Panic
    decreases end
  {
    if end >= PrefixLow(idx) {
      assert CharBoundary(b, end);
      PrefixScanAsciiNoPanic(ch, b, idx, end - 1);
    }
  }

  /** ASCII text never makes the prefix retries panic. */
  lemma WithFormatAsciiNoPanic(ch: Chrono, b: seq<byte>, idx: nat)
    requires idx < FormatCount && AsciiBytes(b)
    ensures WithFormatAsWritten(ch, b, idx) != Panic
  {
    PrefixScanAsciiNoPanic(ch, b, idx, Min(|b|, PrefixHigh(idx)));
  }

  /** One character between two ASCII texts is the only multi-byte part of
      the encoding. */
  lemma Utf8AsciiAround(pre: string, c: char, post: string)
    requires IsAscii(pre) && IsAscii(post)
    ensures Utf8(pre + [c] + post) == Codes(pre) + Utf8Char(c) + Codes(post)
  {
    Utf8Append(pre + [c], post);
    Utf8Append(pre, [c]);
    Utf8One(c);
    Utf8Ascii(pre);
    Utf8Ascii(post);
  }

  /** The bytes of "2024-01-15T08:30:00é": an ISO time followed by a two-byte
      character at offsets 19 and 20. */
  lemma IsoWithAccentBytes()
    ensures Utf8("2024-01-15T08:30:00" + "é")
            == Codes("2024-01-15T08:30:00") + [0xC3, 0xA9]
  {
    Utf8AsciiAround("2024-01-15T08:30:00", 'é', "");
    assert "2024-01-15T08:30:00" + ['é'] + "" == "2024-01-15T08:30:00" + "é";
    assert Codes("") == [];
  }

  /** Whenever chrono rejects "2024-01-15T08:30:00é" in some format, the
      prefix retries as written slice it at byte 20, inside the `é`, and
      panic; the corrected retries skip that length. */
  lemma WithFormatPanicWitness(ch: Chrono, idx: nat)
    requires idx < FormatCount
    requires ch.parseWithFormat(Utf8("2024-01-15T08:30:00" + "é"), idx).None?
    ensures WithFormatAsWritten(ch, Utf8("2024-01-15T08:30:00" + "é"), idx) == Panic
  {
    var b := Utf8("2024-01-15T08:30:00" + "é");
    IsoWithAccentBytes();
    assert |b| == 21 && b[20] == 0xA9;
    assert b[..21] == b;
  }

  // ---------------------------------------------------------------------------
  // Calendar arithmetic
  // ---------------------------------------------------------------------------

  /** The years chrono's `NaiveDate` can represent. */
  const MinYear: int := -262144
  const MaxYear: int := 262143

  predicate IsLeapYear(y: int) {
    y % 4 == 0 && (y % 100 != 0 || y % 400 == 0)
  }

  function DaysInMonth(y: int, m: int): (n: int)
    requires 1 <= m <= 12
    ensures 28 <= n <= 31
  {
    if m == 2 then (if IsLeapYear(y) then 29 else 28)
    else if m == 4 || m == 6 || m == 9 || m == 11 then 30
    else 31
  }

  /** chrono's `NaiveDate::from_ymd_opt` succeeds exactly on these. */
  predicate ValidDate(y: int, m: int, d: int) {
    MinYear <= y <= MaxYear && 1 <= m <= 12 && 1 <= d <= DaysInMonth(y, m)
  }

  /** Days since 1970-01-01 in the proleptic Gregorian calendar (Howard
      Hinnant's `days_from_civil`; `/` with a positive divisor is floor
      division here). */
  function DaysFromCivil(y: int, m: int, d: int): int
    requires 1 <= m <= 12
  {
    var y' := if m <= 2 then y - 1 else y;
    var era := y' / 400;
    var yoe := y' - era * 400;
    var mp := (m + 9) % 12;
    var doy := (153 * mp + 2) / 5 + d - 1;
    var doe := yoe * 365 + yoe / 4 - yoe / 100 + doy;
    era * 146097 + doe - 719468
  }

  lemma EpochDay()
    ensures DaysFromCivil(1970, 1, 1) == 0
  {
  }

  /** The next day of the same month is one day later. */
  lemma NextDay(y: int, m: int, d: int)
    requires 1 <= m <= 12
    ensures DaysFromCivil(y, m, d + 1) == DaysFromCivil(y, m, d) + 1
  {
  }

  /** Day number of March 1 in the March-based year `yp` (the year that
      `DaysFromCivil` counts January and February as the end of). */
  function MarchFirst(yp: int): int {
    var era := yp / 400;
    var yoe := yp - era * 400;
    era * 146097 + yoe * 365 + yoe / 4 - yoe / 100 - 719468
  }

  /** A date's day number: March 1 of its March-based year plus the days of
      the months before it and of its own month. */
  lemma DaysFromCivilOfMarch(y: int, m: int, d: int)
    requires 1 <= m <= 12
    ensures DaysFromCivil(y, m, d)
            == MarchFirst(if m <= 2 then y - 1 else y) + (153 * ((m + 9) % 12) + 2) / 5 + d - 1
  {
  }

  /** A March-based year lasts 365 days, plus one when the February it ends
      with is a leap February. */
  lemma YearLength(yp: int)
    ensures MarchFirst(yp + 1) == MarchFirst(yp) + 365 + (if IsLeapYear(yp + 1) then 1 else 0)
  {
    var era := yp / 400;
    var yoe := yp - era * 400;
    if yoe < 399 {
      MarchFirstInEra(yp, era, yoe);
      MarchFirstInEra(yp + 1, era, yoe + 1);
      LeapInEra(yp + 1, era, yoe + 1);
      EraDayStep(yoe);
      assert MarchFirst(yp + 1) - MarchFirst(yp) == 365 + ((yoe + 1) / 4 - yoe / 4) - ((yoe + 1) / 100 - yoe / 100);
    } else {
      MarchFirstInEra(yp, era, 399);
      MarchFirstInEra(yp + 1, era + 1, 0);
      LeapInEra(yp + 1, era + 1, 0);
    }
  }

  /** March 1 of year `yoe` of an era, counted from the era's start. */
  lemma MarchFirstInEra(yp: int, era: int, yoe: int)
    requires 0 <= yoe < 400 && yp == era * 400 + yoe
    ensures MarchFirst(yp) == era * 146097 + yoe * 365 + yoe / 4 - yoe / 100 - 719468
  {
    assert yp / 400 == era;
  }

  /** Whether a year is a leap year depends only on its place in its era. */
  lemma LeapInEra(y: int, era: int, x: int)
    requires y == era * 400 + x
    ensures IsLeapYear(y) == IsLeapYear(x)
  {
    EraMod4(era, x);
    EraMod100(era, x);
    EraMod400(era, x);
  }

  lemma EraMod4(era: int, x: int)
    ensures (era * 400 + x) % 4 == x % 4
  {
    assert era * 400 + x == 4 * (era * 100 + x / 4) + x % 4;
  }

  lemma EraMod100(era: int, x: int)
    ensures (era * 400 + x) % 100 == x % 100
  {
    assert era * 400 + x == 100 * (era * 4 + x / 100) + x % 100;
  }

  lemma EraMod400(era: int, x: int)
    ensures (era * 400 + x) % 400 == x % 400
  {
    assert era * 400 + x == 400 * (era + x / 400) + x % 400;
  }

  /** Within an era, the leap-day count grows by one at each multiple of 4
      and shrinks by one at each multiple of 100. */
  lemma EraDayStep(yoe: int)
    requires 0 <= yoe < 399
    ensures ((yoe + 1) / 4 - yoe / 4) - ((yoe + 1) / 100 - yoe / 100) == if IsLeapYear(yoe + 1) then 1 else 0
  {
    assert (yoe + 1) / 4 - yoe / 4 == (if (yoe + 1) % 4 == 0 then 1 else 0);
    assert (yoe + 1) / 100 - yoe / 100 == (if (yoe + 1) % 100 == 0 then 1 else 0);
    assert (yoe + 1) % 400 == yoe + 1;
  }

  /** The last day of a month is followed by the first of the next. */
  lemma MonthRollover(y: int, m: int)
    requires 1 <= m < 12
    ensures DaysFromCivil(y, m, DaysInMonth(y, m)) + 1 == DaysFromCivil(y, m + 1, 1)
  {
    if m == 2 {
      FebruaryRollover(y);
    } else {
      DaysFromCivilOfMarch(y, m, DaysInMonth(y, m));
      DaysFromCivilOfMarch(y, m + 1, 1);
      MonthOffsetStep(y, m);
    }
  }

  /** The last day of February is followed by March 1: the end of one
      March-based year and the start of the next. */
  lemma FebruaryRollover(y: int)
    ensures DaysFromCivil(y, 2, DaysInMonth(y, 2)) + 1 == DaysFromCivil(y, 3, 1)
  {
    var n := DaysInMonth(y, 2);
    DaysFromCivilOfMarch(y, 2, n);
    DaysFromCivilOfMarch(y, 3, 1);
    YearLength(y - 1);
    assert y - 1 + 1 == y;
    assert DaysFromCivil(y, 2, n) == MarchFirst(y - 1) + 337 + n - 1;
    assert DaysFromCivil(y, 3, 1) == MarchFirst(y);
  }

  /** Outside February, consecutive month offsets of the March-based year
      differ by the length of the earlier month. */
  lemma MonthOffsetStep(y: int, m: int)
    requires 1 <= m < 12 && m != 2
    ensures (153 * ((m + 10) % 12) + 2) / 5 - (153 * ((m + 9) % 12) + 2) / 5 == DaysInMonth(y, m)
  {
  }

  /** December 31 is followed by January 1 of the next year. */
  lemma YearRollover(y: int)
    ensures DaysFromCivil(y, 12, 31) + 1 == DaysFromCivil(y + 1, 1, 1)
  {
    DaysFromCivilOfMarch(y, 12, 31);
    DaysFromCivilOfMarch(y + 1, 1, 1);
  }

  /** The instant of a calendar date and a time of day. */
  function Instant(y: int, mo: int, d: int, h: int, mi: int, s: int): int
    requires 1 <= mo <= 12
  {
    DaysFromCivil(y, mo, d) * 86400 + h * 3600 + mi * 60 + s
  }

  // ---------------------------------------------------------------------------
  // klog timestamps "MMDD HH:MM:SS.ffffff"
  // ---------------------------------------------------------------------------

  const U32: nat := 0x1_0000_0000

  function CharCount(b: seq<byte>): nat {
    if b == [] then 0 else CharCount(b[..|b| - 1]) + (if IsContinuation(b[|b| - 1]) then 0 else 1)
  }

  function Zeros(n: nat): seq<byte> {
    seq(n, _ => '0' as int)
  }

  /** `format!("{:0<6}", frac)`: the fraction padded with '0' to six
      characters. */
  function PadFraction(frac: seq<byte>): seq<byte> {
    frac + Zeros(if CharCount(frac) < 6 then 6 - CharCount(frac) else 0)
  }

  /** Whether the microsecond reading slices the text off a character
      boundary: the fraction `time_str[9..min(len,15)]`, then the first six
      bytes of the padded fraction. */
  predicate FractionPanics(t: seq<byte>) {
    |t| > 9 && t[8] == '.' as int
    && (!CharBoundary(t, 9) || !CharBoundary(t, Min(|t|, 15))
        || !CharBoundary(PadFraction(t[9..Min(|t|, 15)]), 6))
  }

  /** The date and time fields once read (`NaiveDate::from_ymd_opt` and
      `NaiveTime::from_hms_opt`): a valid date in `year` and a valid time of
      day give the instant. In the klog reader the microseconds never
      invalidate it. */
  function ClockInstant(year: int, month: nat, day: nat, h: nat, mi: nat, s: nat): Option<int> {
    if ValidDate(year, month, day) && h < 24 && mi < 60 && s < 60
    then Some(Instant(year, month, day, h, mi, s)) else None
  }

  /** The klog reader as written. */
  function TryParseKlogAsWritten(b: seq<byte>, year: int): Outcome {
    if |b| < 15 then NoParse
    else if !CharBoundary(b, 4) then Panic
    else if !(forall i :: 0 <= i < 4 ==> IsDigitCode(b[i])) then NoParse
    else if b[4] != ' ' as int then NoParse
    else
      var month := DigitsValue(b[0..2]);
      var day := DigitsValue(b[2..4]);
      if month == 0 || month > 12 || day == 0 || day > 31 then NoParse
      else if !CharBoundary(b, 5) then Panic
      else
        var t := b[5..];
        if |t| < 8 then NoParse
        else if !CharBoundary(t, 2) then Panic
        else
          match ParseUnsigned(t[0..2], U32)
          case None => NoParse
          case Some(h) =>
            if !CharBoundary(t, 3) || !CharBoundary(t, 5) then Panic
            else
              match ParseUnsigned(t[3..5], U32)
              case None => NoParse
              case Some(mi) =>
                if !CharBoundary(t, 6) || !CharBoundary(t, 8) then Panic
                else
                  match ParseUnsigned(t[6..8], U32)
                  case None => NoParse
                  case Some(s) =>
                    if FractionPanics(t) then Panic
                    else Lift(ClockInstant(year, month, day, h, mi, s))
  }

  /** The klog reader: four digits MMDD, a space, then two-digit hour, minute
      and second fields at fixed offsets. A clock field that is not a number,
      or that would cut a character, gives no instant; the fraction is
      ignored. */
  function TryParseKlog(b: seq<byte>, year: int): (r: Option<int>)
    ensures r.Some? ==> |b| >= 15 && b[4] == ' ' as int
                        && forall i :: 0 <= i < 4 ==> IsDigitCode(b[i])
    ensures r.Some? ==> 1 <= DigitsValue(b[0..2]) <= 12
                        && ValidDate(year, DigitsValue(b[0..2]), DigitsValue(b[2..4]))
  {
    if |b| < 15 || !(forall i :: 0 <= i < 4 ==> IsDigitCode(b[i])) || b[4] != ' ' as int then None
    else
      var month := DigitsValue(b[0..2]);
      var day := DigitsValue(b[2..4]);
      if month == 0 || month > 12 || day == 0 || day > 31 then None
      else
        var t := b[5..];
        match (ParseUnsigned(t[0..2], U32), ParseUnsigned(t[3..5], U32), ParseUnsigned(t[6..8], U32))
        case (Some(h), Some(mi), Some(s)) => ClockInstant(year, month, day, h, mi, s)
        case _ => None
  }

  /** Where the klog reader as written does not panic, it computes
      `TryParseKlog`. */
  lemma KlogAgrees(b: seq<byte>, year: int)
    requires TryParseKlogAsWritten(b, year) != Panic
    ensures TryParseKlogAsWritten(b, year) == Lift(TryParseKlog(b, year))
  {
  }

  lemma {:induction false} CharCountAscii(b: seq<byte>)
    requires AsciiBytes(b)
    ensures CharCount(b) == |b|
  {
    if b != [] {
      CharCountAscii(b[..|b| - 1]);
    }
  }

  lemma PadFractionAscii(frac: seq<byte>)
    requires AsciiBytes(frac) && |frac| <= 6
    ensures AsciiBytes(PadFraction(frac)) && |PadFraction(frac)| == 6
  {
    CharCountAscii(frac);
  }

  /** ASCII text never makes the klog reader panic. */
  lemma KlogAsciiNoPanic(b: seq<byte>, year: int)
    requires AsciiBytes(b)
    ensures TryParseKlogAsWritten(b, year) != Panic
  {
    if |b| >= 15 {
      var t := b[5..];
      if |t| > 9 {
        PadFractionAscii(t[9..Min(|t|, 15)]);
      }
    }
  }

  /** The bytes of "0115 0é:00:00.000000". */
  lemma KlogAccentBytes()
    ensures Utf8("0115 0" + "é" + ":00:00.000000")
            == Codes("0115 0") + [0xC3, 0xA9] + Codes(":00:00.000000")
  {
    Utf8AsciiAround("0115 0", 'é', ":00:00.000000");
    assert "0115 0" + ['é'] + ":00:00.000000" == "0115 0" + "é" + ":00:00.000000";
  }

  /** "0115 0é:00:00.000000" passes the length, digit, space and date checks,
      then the hour slice `time_str[0..2]` ends inside the `é`: the reader as
      written panics where the corrected one reports no instant. */
  lemma KlogPanicWitness(year: int)
    ensures TryParseKlogAsWritten(Utf8("0115 0" + "é" + ":00:00.000000"), year) == Panic
    ensures TryParseKlog(Utf8("0115 0" + "é" + ":00:00.000000"), year).None?
  {
    KlogAccentBytes();
    KlogAccentFields(Utf8("0115 0" + "é" + ":00:00.000000"));
  }

  /** The fields the klog reader looks at in the bytes of
      "0115 0é:00:00.000000". */
  lemma KlogAccentFields(b: seq<byte>)
    requires b == Codes("0115 0") + [0xC3, 0xA9] + Codes(":00:00.000000")
    ensures |b| == 21 && b[4] == ' ' as int && forall i :: 0 <= i < 4 ==> IsDigitCode(b[i])
    ensures DigitsValue(b[0..2]) == 1 && DigitsValue(b[2..4]) == 15
    ensures CharBoundary(b, 4) && CharBoundary(b, 5) && !CharBoundary(b[5..], 2)
    ensures ParseUnsigned(b[5..][0..2], U32).None?
  {
    assert b[0..2] == [48, 49] && b[2..4] == [49, 53] && b[4] == 32;
    assert DigitsValue([48, 49]) == 1 by {
      assert [48, 49][..1] == [48];
      assert [48][..0] == [];
    }
    assert DigitsValue([49, 53]) == 15 by {
      assert [49, 53][..1] == [49];
      assert [49][..0] == [];
    }
    assert b[5..][2] == 0xA9;
    assert b[5..][0..2] == [48, 0xC3] && !IsDigitCode(b[5..][0..2][1]);
  }

  /** The two ASCII digit codes of a number below 100, zero-padded. */
  function Pad2(n: nat): (r: seq<byte>)
    requires n < 100
    ensures |r| == 2 && forall i :: 0 <= i < 2 ==> IsDigitCode(r[i])
  {
    [DigitChar(n / 10) as int, DigitChar(n % 10) as int]
  }

  lemma Pad2Value(n: nat)
    requires n < 100
    ensures DigitsValue(Pad2(n)) == n
    ensures ParseUnsigned(Pad2(n), U32) == Some(n)
  {
    var c := Pad2(n);
    assert c[..1] == [c[0]] && [c[0]][..0] == [];
    assert c[0] - '0' as int == n / 10 && c[1] - '0' as int == n % 10;
    assert DigitsValue(c[..1]) == n / 10;
    assert c[0] != '+' as int && DigitsValue(c) == n;
  }

  /** The bytes of a klog timestamp "MMDD HH:MM:SS.000000" built from its
      fields. */
  function KlogStamp(month: nat, day: nat, h: nat, mi: nat, s: nat): (r: seq<byte>)
    requires month < 100 && day < 100 && h < 100 && mi < 100 && s < 100
    ensures |r| == 20 && AsciiBytes(r)
  {
    Pad2(month) + Pad2(day) + [' ' as int] + Pad2(h) + [':' as int] + Pad2(mi) + [':' as int] + Pad2(s)
    + Codes(".000000")
  }

  /** Where the fields of a klog timestamp sit in the bytes. */
  predicate KlogStampAt(b: seq<byte>, month: nat, day: nat, h: nat, mi: nat, s: nat)
    requires month < 100 && day < 100 && h < 100 && mi < 100 && s < 100
  {
    && |b| >= 15 && b[4] == ' ' as int
    && b[0..2] == Pad2(month) && b[2..4] == Pad2(day)
    && b[5..][0..2] == Pad2(h) && b[5..][3..5] == Pad2(mi) && b[5..][6..8] == Pad2(s)
  }

  lemma KlogStampLayout(month: nat, day: nat, h: nat, mi: nat, s: nat)
    requires month < 100 && day < 100 && h < 100 && mi < 100 && s < 100
    ensures KlogStampAt(KlogStamp(month, day, h, mi, s), month, day, h, mi, s)
  {
    var b := KlogStamp(month, day, h, mi, s);
    assert b[0..2] == Pad2(month) && b[2..4] == Pad2(day);
    assert b[5..7] == Pad2(h) && b[8..10] == Pad2(mi) && b[11..13] == Pad2(s);
    var t := b[5..];
    assert t[0..2] == Pad2(h) && t[3..5] == Pad2(mi) && t[6..8] == Pad2(s);
  }

  /** The klog reader over bytes laid out as a klog timestamp. */
  lemma TryParseKlogAt(b: seq<byte>, year: int, month: nat, day: nat, h: nat, mi: nat, s: nat)
    requires ValidDate(year, month, day) && h < 24 && mi < 60 && s < 60
    requires KlogStampAt(b, month, day, h, mi, s)
    ensures TryParseKlog(b, year) == Some(Instant(year, month, day, h, mi, s))
  {
    Pad2Value(month);
    Pad2Value(day);
    Pad2Value(h);
    Pad2Value(mi);
    Pad2Value(s);
    assert forall i :: 0 <= i < 4 ==> IsDigitCode(b[i]) by {
      assert forall i :: 0 <= i < 2 ==> b[i] == b[0..2][i] && b[i + 2] == b[2..4][i];
    }
  }

  /** Reading a rendered klog timestamp gives the instant of its fields. */
  lemma KlogStampRoundTrip(year: int, month: nat, day: nat, h: nat, mi: nat, s: nat)
    requires ValidDate(year, month, day) && h < 24 && mi < 60 && s < 60
    ensures TryParseKlog(KlogStamp(month, day, h, mi, s), year)
            == Some(Instant(year, month, day, h, mi, s))
  {
    KlogStampLayout(month, day, h, mi, s);
    TryParseKlogAt(KlogStamp(month, day, h, mi, s), year, month, day, h, mi, s);
  }

  // ---------------------------------------------------------------------------
  // syslog timestamps "Mon DD HH:MM:SS"
  // ---------------------------------------------------------------------------

  /** The month names, in calendar order. */
  const SyslogMonths: seq<string> :=
    ["Jan", "Feb", "Mar", "Apr", "May", "Jun", "Jul", "Aug", "Sep", "Oct", "Nov", "Dec"]

  /** The number (1-12) of the first month at or after `k` whose name the
      bytes spell. */
  function MonthFrom(m: seq<byte>, k: nat): (r: Option<nat>)
    requires k <= 12
    ensures r.Some? ==> k < r.value <= 12 && Codes(SyslogMonths[r.value - 1]) == m
    ensures r.None? ==> forall j :: k <= j < 12 ==> Codes(SyslogMonths[j]) != m
    decreases 12 - k
  {
    if k == 12 then None
    else if Codes(SyslogMonths[k]) == m then Some(k + 1)
    else MonthFrom(m, k + 1)
  }

  /** The month number of the name the bytes spell, if any. */
  function SyslogMonth(m: seq<byte>): (r: Option<nat>)
    ensures r.Some? ==> 1 <= r.value <= 12 && Codes(SyslogMonths[r.value - 1]) == m
    ensures r.None? ==> forall j :: 0 <= j < 12 ==> Codes(SyslogMonths[j]) != m
  {
    MonthFrom(m, 0)
  }

  /** The month names are distinct. */
  lemma MonthNamesDistinct(j: nat, k: nat)
    requires j < k < 12
    ensures Codes(SyslogMonths[j]) != Codes(SyslogMonths[k])
  {
    assert SyslogMonths[j] != SyslogMonths[k];
    if Codes(SyslogMonths[j]) == Codes(SyslogMonths[k]) {
      CodesInjective(SyslogMonths[j], SyslogMonths[k]);
    }
  }

  lemma CodesInjective(x: string, y: string)
    requires Codes(x) == Codes(y)
    ensures x == y
  {
    assert |x| == |y| && forall i :: 0 <= i < |x| ==> x[i] as int == y[i] as int;
  }

  lemma {:induction false} MonthFromFinds(m: seq<byte>, k: nat, month: nat)
    requires k < month <= 12 && m == Codes(SyslogMonths[month - 1])
    ensures MonthFrom(m, k) == Some(month)
    decreases month - k
  {
    if k < month - 1 {
      MonthNamesDistinct(k, month - 1);
      MonthFromFinds(m, k + 1, month);
    }
  }

  /** Each month name reads as its own number. */
  lemma SyslogMonthOfName(month: nat)
    requires 1 <= month <= 12
    ensures SyslogMonth(Codes(SyslogMonths[month - 1])) == Some(month)
  {
    MonthFromFinds(Codes(SyslogMonths[month - 1]), 0, month);
  }

  /** `str::find(' ')` on the bytes, from offset `i`. */
  function FindSpaceFrom(b: seq<byte>, i: nat): (r: Option<nat>)
    requires i <= |b|
    ensures r.Some? ==> i <= r.value < |b| && b[r.value] == ' ' as int
                        && forall j :: i <= j < r.value ==> b[j] != ' ' as int
    ensures r.None? ==> forall j :: i <= j < |b| ==> b[j] != ' ' as int
    decreases |b| - i
  {
    if i == |b| then None
    else if b[i] == ' ' as int then Some(i)
    else FindSpaceFrom(b, i + 1)
  }

  /** After the month name: the text trimmed, then `DaySplit`. */
  function DayAndTime(after: seq<byte>): (r: Option<(nat, seq<byte>)>)
    ensures r.Some? ==> r.value.0 < U32 && |r.value.1| < |after|
  {
    DaySplit(TrimStartBytes(after))
  }

  /** The day read up to the first space, and the text after that space
      trimmed. The space is one byte, so neither slice around it can cut a
      character. */
  function DaySplit(rest: seq<byte>): (r: Option<(nat, seq<byte>)>)
    ensures r.Some? ==> r.value.0 < U32 && |r.value.1| < |rest|
                        && r.value.1 == rest[|rest| - |r.value.1|..]
  {
    match FindSpaceFrom(rest, 0)
    case None => None
    case Some(sp) =>
      match ParseUnsigned(rest[..sp], U32)
      case None => None
      case Some(day) =>
        var u := rest[sp + 1..];
        var t := TrimStartBytes(u);
        SuffixOfSuffix(rest, u, t);
        Some((day, t))
  }

  /** The time text `DayAndTime` hands on is a suffix of its input. */
  lemma DayAndTimeSuffix(after: seq<byte>, day: nat, t: seq<byte>)
    requires DayAndTime(after) == Some((day, t))
    ensures t == after[|after| - |t|..]
  {
    var rest := TrimStartBytes(after);
    assert DaySplit(rest) == Some((day, t));
    SuffixOfSuffix(after, rest, t);
  }

  /** A suffix of a suffix is a suffix. */
  lemma SuffixOfSuffix(a: seq<byte>, b: seq<byte>, c: seq<byte>)
    requires |b| <= |a| && b == a[|a| - |b|..]
    requires |c| <= |b| && c == b[|b| - |c|..]
    ensures c == a[|a| - |c|..]
  {
    assert forall i :: 0 <= i < |c| ==> c[i] == b[|b| - |c| + i] == a[|a| - |c| + i];
  }

  /** The hour, minute and second fields `time_str[0..2]`, `[3..5]` and
      `[6..8]` as written: each slice panics off a character boundary. */
  function ClockAsWritten(t: seq<byte>, year: int, month: nat, day: nat): Outcome
    requires |t| >= 8
  {
    if !CharBoundary(t, 2) then Panic
    else
      match ParseUnsigned(t[0..2], U32)
      case None => NoParse
      case Some(h) =>
        if !CharBoundary(t, 3) || !CharBoundary(t, 5) then Panic
        else
          match ParseUnsigned(t[3..5], U32)
          case None => NoParse
          case Some(mi) =>
            if !CharBoundary(t, 6) || !CharBoundary(t, 8) then Panic
            else
              match ParseUnsigned(t[6..8], U32)
              case None => NoParse
              case Some(s) => Lift(ClockInstant(year, month, day, h, mi, s))
  }

  /** The hour, minute and second fields read at fixed offsets; a field that
      is not a number gives no instant. */
  function Clock(t: seq<byte>, year: int, month: nat, day: nat): (r: Option<int>)
    requires |t| >= 8
    ensures r.Some? ==> ValidDate(year, month, day)
                        && 0 <= r.value - DaysFromCivil(year, month, day) * 86400 < 86400
  {
    match (ParseUnsigned(t[0..2], U32), ParseUnsigned(t[3..5], U32), ParseUnsigned(t[6..8], U32))
    case (Some(h), Some(mi), Some(s)) => ClockInstant(year, month, day, h, mi, s)
    case _ => None
  }

  /** The month, the day and the time text, where the first three bytes
      name a month and the day is found after them. */
  function SyslogFields(b: seq<byte>): (r: Option<(nat, nat, seq<byte>)>)
    requires |b| >= 3
    ensures r.Some? ==> 1 <= r.value.0 <= 12 && Codes(SyslogMonths[r.value.0 - 1]) == b[..3]
                        && r.value.1 < U32 && |r.value.2| < |b| - 3
  {
    match SyslogMonth(b[..3])
    case None => None
    case Some(month) =>
      match DayAndTime(b[3..])
      case None => None
      case Some((day, t)) => Some((month, day, t))
  }

  /** The syslog reader as written: `&raw[..3]` and the clock slices panic
      off a character boundary. */
  function TryParseSyslogAsWritten(b: seq<byte>, year: int): Outcome {
    if |b| < 15 then NoParse
    else if !CharBoundary(b, 3) then Panic
    else
      match SyslogFields(b)
      case None => NoParse
      case Some((month, day, t)) => if |t| < 8 then NoParse else ClockAsWritten(t, year, month, day)
  }

  /** The syslog reader: at least 15 bytes, a month name in the first three,
      then after any white space the day up to the next space, then after any
      white space two-digit hour, minute and second fields at fixed offsets.
      A field that is not a number, or a slice that would cut a character,
      gives no instant. */
  function TryParseSyslog(b: seq<byte>, year: int): (r: Option<int>)
    ensures r.Some? ==> |b| >= 15 && SyslogFields(b).Some?
                        && var (month, day, _) := SyslogFields(b).value;
                           ValidDate(year, month, day)
                           && 0 <= r.value - DaysFromCivil(year, month, day) * 86400 < 86400
  {
    if |b| < 15 then None
    else
      match SyslogFields(b)
      case None => None
      case Some((month, day, t)) => if |t| < 8 then None else Clock(t, year, month, day)
  }

  /** Where the clock fields as written do not panic, they read as `Clock`. */
  lemma ClockAgrees(t: seq<byte>, year: int, month: nat, day: nat)
    requires |t| >= 8 && ClockAsWritten(t, year, month, day) != Panic
    ensures ClockAsWritten(t, year, month, day) == Lift(Clock(t, year, month, day))
  {
  }

  /** Where the syslog reader as written does not panic, it computes
      `TryParseSyslog`. */
  lemma SyslogAgrees(b: seq<byte>, year: int)
    requires TryParseSyslogAsWritten(b, year) != Panic
    ensures TryParseSyslogAsWritten(b, year) == Lift(TryParseSyslog(b, year))
  {
    if |b| >= 15 && SyslogFields(b).Some? {
      var (month, day, t) := SyslogFields(b).value;
      if |t| >= 8 {
        ClockAgrees(t, year, month, day);
      }
    }
  }

  /** ASCII clock fields never panic. */
  lemma ClockAsciiNoPanic(t: seq<byte>, year: int, month: nat, day: nat)
    requires |t| >= 8 && AsciiBytes(t)
    ensures ClockAsWritten(t, year, month, day) != Panic
  {
    assert CharBoundary(t, 2) && CharBoundary(t, 3) && CharBoundary(t, 5);
    assert CharBoundary(t, 6) && CharBoundary(t, 8);
  }

  /** ASCII text never makes the syslog reader panic. */
  lemma SyslogAsciiNoPanic(b: seq<byte>, year: int)
    requires AsciiBytes(b)
    ensures TryParseSyslogAsWritten(b, year) != Panic
  {
    if |b| >= 15 && SyslogFields(b).Some? {
      var (month, day, t) := SyslogFields(b).value;
      SyslogFieldsDay(b, month, day, t);
      SyslogTimeAscii(b, day, t);
      SyslogClockNoPanic(b, year, month, day, t);
    }
  }

  /** The day and time text of the fields are what `DayAndTime` finds after
      the month name. */
  lemma SyslogFieldsDay(b: seq<byte>, month: nat, day: nat, t: seq<byte>)
    requires |b| >= 3 && SyslogFields(b) == Some((month, day, t))
    ensures DayAndTime(b[3..]) == Some((day, t))
  {
  }

  /** The time text found in ASCII text is ASCII. */
  lemma SyslogTimeAscii(b: seq<byte>, day: nat, t: seq<byte>)
    requires |b| >= 15 && AsciiBytes(b) && DayAndTime(b[3..]) == Some((day, t))
    ensures b[3] < 0x80 && AsciiBytes(t)
  {
    var after := b[3..];
    AsciiSuffix(b, after);
    DayAndTimeSuffix(after, day, t);
    AsciiSuffix(after, t);
  }

  /** ASCII time text cannot make the clock slices panic. */
  lemma SyslogClockNoPanic(b: seq<byte>, year: int, month: nat, day: nat, t: seq<byte>)
    requires |b| >= 15 && b[3] < 0x80 && AsciiBytes(t)
    requires SyslogFields(b) == Some((month, day, t))
    ensures TryParseSyslogAsWritten(b, year) != Panic
  {
    SyslogAsWrittenOfParts(b, year, month, day, t);
    if |t| >= 8 {
      ClockAsciiNoPanic(t, year, month, day);
    }
  }

  /** Where the month, the day and the time text are found, the syslog
      reader as written is the clock reading as written, or no reading when
      the time text is short. */
  lemma SyslogAsWrittenOfParts(b: seq<byte>, year: int, month: nat, day: nat, t: seq<byte>)
    requires |b| >= 15 && b[3] < 0x80
    requires SyslogFields(b) == Some((month, day, t))
    ensures TryParseSyslogAsWritten(b, year) == if |t| < 8 then NoParse else ClockAsWritten(t, year, month, day)
  {
    assert CharBoundary(b, 3);
  }

  /** A suffix of ASCII bytes is ASCII. */
  lemma AsciiSuffix(a: seq<byte>, c: seq<byte>)
    requires AsciiBytes(a) && |c| <= |a| && c == a[|a| - |c|..]
    ensures AsciiBytes(c)
  {
    assert forall i :: 0 <= i < |c| ==> c[i] == a[|a| - |c| + i];
  }

  /** The bytes of "Jaé 15 08:30:00". */
  lemma SyslogAccentBytes()
    ensures Utf8("Ja" + "é" + " 15 08:30:00") == Codes("Ja") + [0xC3, 0xA9] + Codes(" 15 08:30:00")
  {
    Utf8AsciiAround("Ja", 'é', " 15 08:30:00");
    assert "Ja" + ['é'] + " 15 08:30:00" == "Ja" + "é" + " 15 08:30:00";
  }

  /** "Jaé 15 08:30:00" is 16 bytes: too short for any prefix retry and not
      an integer, so unless chrono or the floating-point reading takes it
      whole it reaches the syslog reader, whose `&raw[..3]` ends inside the
      `é`. The corrected reader reports no instant. */
  lemma SyslogPanicWitness(ch: Chrono, year: int)
    ensures var b := Utf8("Ja" + "é" + " 15 08:30:00");
            && TryParseSyslogAsWritten(b, year) == Panic
            && TryParseSyslog(b, year).None?
            && ParseI64(b).None?
            && forall idx :: 0 <= idx < FormatCount ==> WithFormatAsWritten(ch, b, idx) == Lift(ch.parseWithFormat(b, idx))
  {
    var b := Utf8("Ja" + "é" + " 15 08:30:00");
    SyslogAccentBytes();
    SyslogAccentFields(b);
  }

  /** The fields the syslog reader looks at in the bytes of
      "Jaé 15 08:30:00". */
  lemma SyslogAccentFields(b: seq<byte>)
    requires b == Codes("Ja") + [0xC3, 0xA9] + Codes(" 15 08:30:00")
    ensures |b| == 16 && b[0] == 'J' as int && !CharBoundary(b, 3)
    ensures SyslogFields(b).None? && ParseI64(b).None?
  {
    assert b[0] == 'J' as int && b[2] == 0xC3 && b[3] == 0xA9;
    forall j | 0 <= j < 12
      ensures Codes(SyslogMonths[j]) != b[..3]
    {
      MonthNameAscii(j);
      assert b[..3][2] == 0xC3;
    }
  }

  /** Every month name is three ASCII letters. */
  lemma MonthNameAscii(j: nat)
    requires j < 12
    ensures |Codes(SyslogMonths[j])| == 3 && Codes(SyslogMonths[j])[2] < 0x80
  {
  }

  /** The day field of a syslog stamp, right-aligned in two columns. */
  function DayField(day: nat): (r: seq<byte>)
    requires 1 <= day < 100
    ensures |r| == 2
  {
    if day < 10 then [' ' as int, DigitChar(day) as int] else Pad2(day)
  }

  /** The bytes of "HH:MM:SS". */
  function Hms(h: nat, mi: nat, s: nat): (r: seq<byte>)
    requires h < 100 && mi < 100 && s < 100
    ensures |r| == 8 && IsDigitCode(r[0])
    ensures r[0..2] == Pad2(h) && r[3..5] == Pad2(mi) && r[6..8] == Pad2(s)
  {
    Pad2(h) + [':' as int] + Pad2(mi) + [':' as int] + Pad2(s)
  }

  /** The bytes of a syslog timestamp "Mon DD HH:MM:SS" built from its
      fields. */
  function SyslogStamp(month: nat, day: nat, h: nat, mi: nat, s: nat): (r: seq<byte>)
    requires 1 <= month <= 12 && 1 <= day < 100 && h < 100 && mi < 100 && s < 100
    ensures |r| == 15
  {
    Codes(SyslogMonths[month - 1]) + [' ' as int] + DayField(day) + [' ' as int] + Hms(h, mi, s)
  }

  /** Reading a rendered syslog timestamp gives the instant of its fields. */
  lemma SyslogStampRoundTrip(year: int, month: nat, day: nat, h: nat, mi: nat, s: nat)
    requires ValidDate(year, month, day) && h < 24 && mi < 60 && s < 60
    ensures TryParseSyslog(SyslogStamp(month, day, h, mi, s), year)
            == Some(Instant(year, month, day, h, mi, s))
  {
    var b := SyslogStamp(month, day, h, mi, s);
    var digits: seq<byte> := if day < 10 then [DigitChar(day) as int] else Pad2(day);
    var t := Hms(h, mi, s);
    SyslogStampLayout(b, digits, month, day, h, mi, s);
    SyslogMonthOfName(month);
    DayAndTimeOfStamp(b[3..], digits, day, t, day < 10);
    assert SyslogFields(b) == Some((month, day, t));
    ClockOfHms(year, month, day, h, mi, s);
    SyslogOfParts(b, year, month, day, t);
  }

  /** Where the month, the day and the time text are found, the syslog
      reader gives the clock reading. */
  lemma SyslogOfParts(b: seq<byte>, year: int, month: nat, day: nat, t: seq<byte>)
    requires |b| >= 15 && |t| >= 8
    requires SyslogFields(b) == Some((month, day, t))
    ensures TryParseSyslog(b, year) == Clock(t, year, month, day)
  {
  }

  /** The fields of a syslog stamp sit where the reader looks for them. */
  lemma SyslogStampLayout(b: seq<byte>, digits: seq<byte>, month: nat, day: nat, h: nat, mi: nat, s: nat)
    requires 1 <= month <= 12 && 1 <= day < 100 && h < 100 && mi < 100 && s < 100
    requires b == SyslogStamp(month, day, h, mi, s)
    requires digits == (if day < 10 then [DigitChar(day) as int] else Pad2(day))
    ensures b[..3] == Codes(SyslogMonths[month - 1])
    ensures b[3..] == (if day < 10 then [' ' as int, ' ' as int] else [' ' as int]) + digits + [' ' as int] + Hms(h, mi, s)
  {
    var name := Codes(SyslogMonths[month - 1]);
    assert |name| == 3;
    assert b == name + ([' ' as int] + DayField(day) + [' ' as int] + Hms(h, mi, s));
    assert [' ' as int] + DayField(day) == (if day < 10 then [' ' as int, ' ' as int] else [' ' as int]) + digits;
  }

  /** The clock fields of "HH:MM:SS" read as that time of day. */
  lemma ClockOfHms(year: int, month: nat, day: nat, h: nat, mi: nat, s: nat)
    requires ValidDate(year, month, day) && h < 24 && mi < 60 && s < 60
    ensures Clock(Hms(h, mi, s), year, month, day) == Some(Instant(year, month, day, h, mi, s))
  {
    Pad2Value(h);
    Pad2Value(mi);
    Pad2Value(s);
  }

  /** What follows the month name in a rendered stamp splits into the day
      and the time text. */
  lemma DayAndTimeOfStamp(after: seq<byte>, digits: seq<byte>, day: nat, time: seq<byte>, short: bool)
    requires 1 <= day < 100 && digits == (if day < 10 then [DigitChar(day) as int] else Pad2(day))
    requires |time| == 8 && IsDigitCode(time[0])
    requires after == (if short then [' ' as int, ' ' as int] else [' ' as int]) + digits + [' ' as int] + time
    ensures DayAndTime(after) == Some((day, time))
  {
    SyslogRestTrim(after, digits, time, short);
    DaySplitOfStamp(digits, day, time);
  }

  /** The day digits, a space and the time text split into the day and the
      time text. */
  lemma DaySplitOfStamp(digits: seq<byte>, day: nat, time: seq<byte>)
    requires 1 <= day < 100 && digits == (if day < 10 then [DigitChar(day) as int] else Pad2(day))
    requires |time| == 8 && IsDigitCode(time[0])
    ensures DaySplit(digits + [' ' as int] + time) == Some((day, time))
  {
    var rest: seq<byte> := digits + [' ' as int] + time;
    assert forall j :: 0 <= j < |digits| ==> IsDigitCode(digits[j]);
    assert forall j :: 0 <= j < |digits| ==> rest[j] == digits[j];
    assert rest[|digits|] == ' ' as int;
    FindSpaceAt(rest, 0, |digits|);
    assert rest[..|digits|] == digits && rest[|digits| + 1..] == time;
    DayDigitsValue(day);
    TrimDigitStart(time);
  }

  /** `FindSpaceFrom` finds the first space. */
  lemma {:induction false} FindSpaceAt(b: seq<byte>, i: nat, k: nat)
    requires i <= k < |b| && b[k] == ' ' as int
    requires forall j :: i <= j < k ==> b[j] != ' ' as int
    ensures FindSpaceFrom(b, i) == Some(k)
    decreases k - i
  {
    if i < k {
      FindSpaceAt(b, i + 1, k);
    }
  }

  /** The bytes after the month name trim to the day digits. */
  lemma SyslogRestTrim(after: seq<byte>, digits: seq<byte>, time: seq<byte>, short: bool)
    requires digits != [] && IsDigitCode(digits[0])
    requires after == (if short then [' ' as int, ' ' as int] else [' ' as int]) + digits + [' ' as int] + time
    ensures TrimStartBytes(after) == digits + [' ' as int] + time
  {
    var rest: seq<byte> := digits + [' ' as int] + time;
    TrimDigitStart(rest);
    if short {
      assert after == [' ' as int] + ([' ' as int] + rest);
      TrimSpace([' ' as int] + rest);
      TrimSpace(rest);
    } else {
      assert after == [' ' as int] + rest;
      TrimSpace(rest);
    }
  }

  /** Text starting with a digit has nothing to trim. */
  lemma TrimDigitStart(x: seq<byte>)
    requires x != [] && IsDigitCode(x[0])
    ensures TrimStartBytes(x) == x
  {
    assert WhitespaceWidth(x) == 0;
  }

  /** A leading space is trimmed. */
  lemma TrimSpace(x: seq<byte>)
    ensures TrimStartBytes([' ' as int] + x) == TrimStartBytes(x)
  {
    assert WhitespaceWidth([' ' as int] + x) == 1;
    assert ([' ' as int] + x)[1..] == x;
  }

  /** The day digits of a day field read back as the day. */
  lemma DayDigitsValue(day: nat)
    requires 1 <= day < 100
    ensures ParseUnsigned(if day < 10 then [DigitChar(day) as int] else Pad2(day), U32) == Some(day)
  {
    if day < 10 {
      var d := [DigitChar(day) as int];
      assert d[0] != '+' as int && IsDigitCode(d[0]) && d[..|d| - 1] == [];
      assert DigitsValue(d) == day;
    } else {
      Pad2Value(day);
    }
  }

  // ---------------------------------------------------------------------------
  // The whole reader
  // ---------------------------------------------------------------------------

  /** Everything after the chrono formats: integer epoch milliseconds or
      seconds, the floating-point epoch, syslog, then klog. */
  function Fallback(ch: Chrono, year: int, b: seq<byte>): (r: Option<int>)
    ensures forall n :: (ParseI64(b) == Some(n) && 1_000_000_000_000 <= n < 100_000_000_000_000)
                        ==> r == Some(n / 1000)
    ensures forall n :: (ParseI64(b) == Some(n) && 1_000_000_000 <= n < 10_000_000_000)
                        ==> r == Some(n)
  {
    var rest := ch.parseFloatEpoch(b).Or(TryParseSyslog(b, year)).Or(TryParseKlog(b, year));
    match ParseI64(b)
    case Some(n) =>
      if 1_000_000_000_000 <= n < 100_000_000_000_000 then Some(n / 1000)
      else if 1_000_000_000 <= n < 10_000_000_000 then Some(n)
      else rest
    case None => rest
  }

  /** A remembered format index is one of the formats. */
  predicate ValidCache(cache: Option<nat>) {
    cache.None? || cache.value < FormatCount
  }

  /** The first format at or after `i`, other than the remembered one, that
      reads the text, with its reading. */
  function ScanFormats(ch: Chrono, b: seq<byte>, skip: Option<nat>, i: nat): (r: Option<(nat, int)>)
    requires i <= FormatCount
    ensures r.Some? ==> i <= r.value.0 < FormatCount && skip != Some(r.value.0)
                        && WithFormat(ch, b, r.value.0) == Some(r.value.1)
    ensures r.Some? ==> forall k :: i <= k < r.value.0 && skip != Some(k) ==> WithFormat(ch, b, k).None?
    ensures r.None? ==> forall k :: i <= k < FormatCount && skip != Some(k) ==> WithFormat(ch, b, k).None?
    decreases FormatCount - i
  {
    if i == FormatCount then None
    else if skip != Some(i) && WithFormat(ch, b, i).Some? then Some((i, WithFormat(ch, b, i).value))
    else ScanFormats(ch, b, skip, i + 1)
  }

  /** Read the trimmed, non-blank text's bytes given the remembered ("winner
      sticks") format: returns the instant and the format to remember next.
      A remembered format that reads the text wins and stays remembered.
      Otherwise, when some other format reads the text, the first such format
      becomes the remembered one and its reading is the result. When no
      format reads the text, the fallbacks decide and the memory is kept. */
  function ReadTimestamp(ch: Chrono, year: int, cache: Option<nat>, b: seq<byte>): (r: (Option<int>, Option<nat>))
    requires ValidCache(cache)
    ensures ValidCache(r.1)
    ensures cache.Some? && WithFormat(ch, b, cache.value).Some?
            ==> r == (WithFormat(ch, b, cache.value), cache)
    ensures && !(cache.Some? && WithFormat(ch, b, cache.value).Some?)
            && (exists k :: 0 <= k < FormatCount && cache != Some(k) && WithFormat(ch, b, k).Some?)
            ==> && r.1.Some? && r.1 != cache
                && r.0.Some? && r.0 == WithFormat(ch, b, r.1.value)
                && forall k :: 0 <= k < r.1.value ==> WithFormat(ch, b, k).None?
    ensures (forall k :: 0 <= k < FormatCount ==> WithFormat(ch, b, k).None?)
            ==> r == (Fallback(ch, year, b), cache)
  {
    if cache.Some? && WithFormat(ch, b, cache.value).Some? then (WithFormat(ch, b, cache.value), cache)
    else
      match ScanFormats(ch, b, cache, 0)
      case Some((i, t)) => (Some(t), Some(i))
      case None => (Fallback(ch, year, b), cache)
  }

  /** `parse_timestamp` given the remembered ("winner sticks") format. */
  function ParseTimestampSpec(ch: Chrono, year: int, cache: Option<nat>, text: string): (r: (Option<int>, Option<nat>))
    requires ValidCache(cache)
    ensures ValidCache(r.1)
    ensures Trim(text) == [] ==> r == (None, cache)
  {
    if Trim(text) == [] then (None, cache) else ReadTimestamp(ch, year, cache, Utf8(Trim(text)))
  }

  /** Reading the same text again with the format it left remembered gives
      the same instant and keeps that format. */
  lemma ReadTimestampStable(ch: Chrono, year: int, cache: Option<nat>, b: seq<byte>)
    requires ValidCache(cache)
    ensures var (t, c) := ReadTimestamp(ch, year, cache, b);
            ReadTimestamp(ch, year, c, b) == (t, c)
  {
    var (t, c) := ReadTimestamp(ch, year, cache, b);
    if c == cache && !(cache.Some? && WithFormat(ch, b, cache.value).Some?) {
      assert ScanFormats(ch, b, cache, 0).None?;
    }
  }

  /** The thread-local "winner sticks" cell: the index of the format that
      last read a timestamp. */
  class FormatCache {
    var last: Option<nat>

    ghost predicate Valid()
      reads this
    {
      ValidCache(last)
    }

    constructor ()
      ensures last.None?
    {
      last := None;
    }

    /** Forget the remembered format. */
    method Reset()
      modifies this
      ensures last.None?
    {
      last := None;
    }

    /** Read a timestamp, trying the remembered format first and remembering
        the format that wins a scan. */
    method ParseTimestamp(ch: Chrono, year: int, text: string) returns (t: Option<int>)
      requires Valid()
      modifies this
      ensures Valid()
      ensures (t, last) == ParseTimestampSpec(ch, year, old(last), text)
    {
      var raw := Trim(text);
      if raw == [] {
        return None;
      }
      t := Read(ch, year, Utf8(raw));
    }

    /** The format attempts and fallbacks on the trimmed text's bytes. */
    method Read(ch: Chrono, year: int, b: seq<byte>) returns (t: Option<int>)
      requires Valid()
      modifies this
      ensures Valid()
      ensures (t, last) == ReadTimestamp(ch, year, old(last), b)
    {
      var lastIdx := last;
      if lastIdx.Some? {
        t := TryParseWithFormat(ch, b, lastIdx.value);
        if t.Some? {
          return;
        }
      }
      var i: nat := 0;
      while i < FormatCount
        invariant i <= FormatCount && last == lastIdx
        invariant ScanFormats(ch, b, lastIdx, i) == ScanFormats(ch, b, lastIdx, 0)
      {
        if Some(i) != lastIdx {
          t := TryParseWithFormat(ch, b, i);
          if t.Some? {
            assert ScanFormats(ch, b, lastIdx, 0) == Some((i, t.value));
            last := Some(i);
            return;
          }
        }
        i := i + 1;
      }
      assert ScanFormats(ch, b, lastIdx, 0).None?;
      t := Fallback(ch, year, b);
    }
  }
}
