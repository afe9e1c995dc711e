/** The `java.time` values the converters read and write, and the range
    rules their factories enforce: `LocalDate.of`, `LocalTime.of` and
    `ZoneOffset.ofHoursMinutes` throw `DateTimeException` outside them. The
    calendar is the proleptic Gregorian one of ISO-8601. */
module JavaTime {
  import opened Java
  import opened DecimalText

  datatype LocalDate = LocalDate(year: int, month: int, day: int)
  datatype LocalTime = LocalTime(hour: int, minute: int, second: int, nano: int)
  datatype LocalDateTime = LocalDateTime(date: LocalDate, time: LocalTime)
  /** A fixed offset from UTC, in seconds. */
  datatype ZoneOffset = ZoneOffset(totalSeconds: int)
  datatype OffsetDateTime = OffsetDateTime(dateTime: LocalDateTime, offset: ZoneOffset)
  datatype OffsetTime = OffsetTime(time: LocalTime, offset: ZoneOffset)

  /** `ZoneOffset.UTC`. */
  const UTC: ZoneOffset := ZoneOffset(0)

  const MAX_OFFSET: int := 18 * 3600

  predicate IsLeap(year: int) {
    year % 4 == 0 && (year % 100 != 0 || year % 400 == 0)
  }

  function MonthLength(year: int, month: int): int
    requires 1 <= month <= 12
  {
    if month == 2 then (if IsLeap(year) then 29 else 28)
    else if month == 4 || month == 6 || month == 9 || month == 11 then 30
    else 31
  }

  predicate ValidDate(d: LocalDate) {
    && -999_999_999 <= d.year <= 999_999_999
    && 1 <= d.month <= 12
    && 1 <= d.day <= MonthLength(d.year, d.month)
  }

  predicate ValidTime(t: LocalTime) {
    0 <= t.hour < 24 && 0 <= t.minute < 60 && 0 <= t.second < 60 && 0 <= t.nano < 1_000_000_000
  }

  predicate ValidOffset(z: ZoneOffset) {
    -MAX_OFFSET <= z.totalSeconds <= MAX_OFFSET
  }

  predicate ValidDateTime(v: LocalDateTime) {
    ValidDate(v.date) && ValidTime(v.time)
  }

  /** `LocalDate.of(year, month, day)`. */
  function DateOf(year: int, month: int, day: int): (r: Result<LocalDate>)
    ensures r.Ok? <==> ValidDate(LocalDate(year, month, day))
    ensures r.Ok? ==> r.value == LocalDate(year, month, day)
    ensures r.Err? ==> r.error == DateTimeInvalid
  {
    var d := LocalDate(year, month, day);
    if ValidDate(d) then Ok(d) else Err(DateTimeInvalid)
  }

  /** `LocalTime.of(hour, minute, second, nano)`. */
  function TimeOf(hour: int, minute: int, second: int, nano: int): (r: Result<LocalTime>)
    ensures r.Ok? <==> ValidTime(LocalTime(hour, minute, second, nano))
    ensures r.Ok? ==> r.value == LocalTime(hour, minute, second, nano)
    ensures r.Err? ==> r.error == DateTimeInvalid
  {
    var t := LocalTime(hour, minute, second, nano);
    if ValidTime(t) then Ok(t) else Err(DateTimeInvalid)
  }

  /** `LocalDateTime.of(year, month, day, hour, minute, second, nano)`:
      the date is checked before the time. */
  function DateTimeOf(year: int, month: int, day: int, hour: int, minute: int, second: int, nano: int): (r: Result<LocalDateTime>)
    ensures r.Ok? <==> ValidDateTime(LocalDateTime(LocalDate(year, month, day), LocalTime(hour, minute, second, nano)))
    ensures r.Ok? ==> r.value == LocalDateTime(LocalDate(year, month, day), LocalTime(hour, minute, second, nano))
  {
    var date :- DateOf(year, month, day);
    var time :- TimeOf(hour, minute, second, nano);
    Ok(LocalDateTime(date, time))
  }

  /** `ZoneOffset.ofHoursMinutes(hours, minutes)`: the hours within 18 and
      the minutes within 59, the minutes with the sign of the hours (either
      sign when the hours are zero), and no minutes at 18 hours. */
  function OfHoursMinutes(hours: int, minutes: int): (r: Result<ZoneOffset>)
    ensures r.Ok? ==> r.value.totalSeconds == hours * 3600 + minutes * 60 && ValidOffset(r.value)
    ensures r.Ok? && hours < 0 ==> minutes <= 0
    ensures r.Ok? && hours > 0 ==> minutes >= 0
  {
    if hours < -18 || hours > 18 then Err(DateTimeInvalid)
    else if hours > 0 && minutes < 0 then Err(DateTimeInvalid)
    else if hours < 0 && minutes > 0 then Err(DateTimeInvalid)
    else if minutes < -59 || minutes > 59 then Err(DateTimeInvalid)
    else if (hours == 18 || hours == -18) && minutes != 0 then Err(DateTimeInvalid)
    else Ok(ZoneOffset(hours * 3600 + minutes * 60))
  }

  /** `ZoneOffset.getId()`: `Z` for UTC, otherwise the sign, `HH:MM` of the
      absolute offset, and `:SS` when its seconds are not zero. */
  function ZoneId(z: ZoneOffset): (r: seq<Byte>)
    requires ValidOffset(z)
    ensures z.totalSeconds == 0 ==> r == ['Z' as int]
    ensures z.totalSeconds != 0 && z.totalSeconds % 60 == 0 ==> |r| == 6
  {
    if z.totalSeconds == 0 then ['Z' as int]
    else
      var abs := if z.totalSeconds < 0 then -z.totalSeconds else z.totalSeconds;
      var sign: Byte := if z.totalSeconds < 0 then MINUS else PLUS;
      var hm := [sign] + Padded(abs / 3600, 2) + [COLON] + Padded(abs / 60 % 60, 2);
      if abs % 60 == 0 then hm else hm + [COLON] + Padded(abs % 60, 2)
  }
}
