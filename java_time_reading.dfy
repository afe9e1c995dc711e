/** The deserializers of `JavaTimeConverter`. Each starts from the `tmp`
    buffer that `readSimpleQuote` has filled with the characters of the
    string and from the string's length `len`; characters of `tmp` past
    `len` are whatever an earlier string left there. A fast path reads the
    common ISO-8601 shapes at fixed positions; every other text goes to the
    library's own `parse`, which is not part of this model and appears as
    `Fallback`. */
module JavaTimeReading {
  import opened Java
  import opened DecimalText
  import opened JavaTime
  import opened DateLayout
  import NumberConverter
  import NumberProperties

  /** What a deserializer returns: the value the fast path builds, or the
      text it hands to `parse`. */
  datatype Parsed<T> = Value(value: T) | Fallback(text: seq<Char>)

  // ---------------------------------------------------------------------
  // Digits and fractions

  /** `allDigits(buffer, start, end)` as a property: nothing but ASCII
      digits from `start` up to `end`, vacuously when `end <= start`. */
  predicate DigitsBetween(buffer: seq<Char>, start: int, end: int)
    requires 0 <= start && end <= |buffer|
  {
    forall i | start <= i < end :: IsDigit(buffer[i])
  }

  /** `allDigits(buffer, start, end)`: the scan stops at the first
      character that is not a digit. */
  method AllDigitsScan(buffer: seq<Char>, start: int, end: int) returns (all: bool)
    requires 0 <= start && end <= |buffer|
    ensures all == DigitsBetween(buffer, start, end)
  {
    var i := start;
    while i < end
      invariant start <= i && (start <= end ==> i <= end)
      invariant forall j | start <= j < i && j < end :: IsDigit(buffer[j])
    {
      if buffer[i] < '0' as int || buffer[i] > '9' as int {
        return false;
      }
      i := i + 1;
    }
    return true;
  }

  /** The first `k` characters from `offset` as the leading places of a
      nine-digit fraction: character `i` counts `10^(8-i)` times its digit. */
  function Weighted(tmp: seq<Char>, offset: int, k: int): int
    requires 0 <= offset && 0 <= k <= 9 && offset + k <= |tmp|
  {
    if k == 0 then 0 else Weighted(tmp, offset, k - 1) + (tmp[offset + k - 1] as int - 48) * Pow10(9 - k)
  }

  /** How many characters `readNanos` reads when `len - offset` are left:
      one to eight as they are, nine for every other count. */
  function NanoWidth(count: int): int {
    if 1 <= count <= 8 then count else 9
  }

  /** `readNanos(tmp, len, offset)`: the fraction from `offset` up to `len`
      scaled to nanoseconds, in `int` arithmetic. For any count other than
      one to eight it reads nine characters, past `len` if need be, and
      fails where `tmp` ends first. */
  function ReadNanos(tmp: seq<Char>, len: int, offset: int): (r: Result<int>)
    requires 0 <= offset
    ensures r.Err? <==> offset + NanoWidth(len - offset) > |tmp|
    ensures r.Err? ==> r.error == IndexOutOfBounds
    ensures r.Ok? ==> IsInt(r.value)
  {
    var k := NanoWidth(len - offset);
    if offset + k > |tmp| then Err(IndexOutOfBounds) else Ok(Int32(Weighted(tmp, offset, k)))
  }

  /** On digits, the weighted sum is the number they spell shifted to nine
      places. */
  lemma {:induction false} WeightedValue(tmp: seq<Char>, offset: int, k: int)
    requires 0 <= offset && 0 <= k <= 9 && offset + k <= |tmp| && AllDigits(tmp[offset..offset + k])
    ensures Weighted(tmp, offset, k) == DigitsValue(tmp[offset..offset + k]) * Pow10(9 - k)
  {
    if k > 0 {
      var s := tmp[offset..offset + k];
      var init := tmp[offset..offset + k - 1];
      assert AllDigits(init) by {
        forall j | 0 <= j < |init| ensures IsDigit(init[j]) {
          assert init[j] == s[j];
        }
      }
      WeightedValue(tmp, offset, k - 1);
      assert s == init + [tmp[offset + k - 1]];
      AccumulateSnoc(0, init, tmp[offset + k - 1]);
      ShiftPlace(DigitsValue(init), tmp[offset + k - 1] as int - 48, 9 - k);
    }
  }

  /** A place value ten times larger, and one more digit. */
  lemma ShiftPlace(v: int, d: int, n: nat)
    ensures v * Pow10(n + 1) + d * Pow10(n) == (v * 10 + d) * Pow10(n)
  {
    var p := Pow10(n);
    assert Pow10(n + 1) == 10 * p;
    calc {
      v * (10 * p) + d * p;
      (v * 10) * p + d * p;
      (v * 10 + d) * p;
    }
  }

  /** `readNanos` on one to nine digits: the number they spell, scaled to
      nine places, below a second. */
  lemma ReadNanosValue(tmp: seq<Char>, len: int, offset: int)
    requires 0 <= offset < len <= |tmp| && len - offset <= 9 && AllDigits(tmp[offset..len])
    ensures ReadNanos(tmp, len, offset) == Ok(DigitsValue(tmp[offset..len]) * Pow10(9 - (len - offset)))
    ensures 0 <= DigitsValue(tmp[offset..len]) * Pow10(9 - (len - offset)) < 1_000_000_000
  {
    var k := len - offset;
    WeightedValue(tmp, offset, k);
    NumberProperties.DigitsValueBelow(tmp[offset..len]);
    ScaledBelow(DigitsValue(tmp[offset..len]), k);
  }

  /** A number of `k` digits shifted to nine places is below a second. */
  lemma ScaledBelow(v: int, k: int)
    requires 0 <= k <= 9 && 0 <= v < Pow10(k)
    ensures 0 <= v * Pow10(9 - k) < 1_000_000_000
  {
    var p, q := Pow10(9 - k), Pow10(k);
    Pow10Add(k, 9 - k);
    assert q * p == Pow10(9) == 1_000_000_000;
    MulBelow(v, q, p);
  }

  /** A smaller factor, a smaller product. */
  lemma MulBelow(v: int, q: int, p: int)
    requires 0 <= v < q && 0 < p
    ensures 0 <= v * p < q * p
  {
    assert q * p - v * p == (q - v) * p;
  }

  // ---------------------------------------------------------------------
  // Fixed-position fields

  /** `tmp[10]` may separate the date from the time as `T`, `t` or a space. */
  predicate IsTimeSeparator(c: Char) {
    c == 'T' as int || c == 't' as int || c == ' ' as int
  }

  /** The `YYYY-MM-DDTHH:MM:SS` separators at the start of `tmp`. */
  predicate DateTimeShape(tmp: seq<Char>)
    requires 17 <= |tmp|
  {
    tmp[4] == MINUS && tmp[7] == MINUS && IsTimeSeparator(tmp[10]) && tmp[13] == COLON && tmp[16] == COLON
  }

  /** `LocalDateTime.of` over the fields at their fixed positions. */
  function DateTimeAt(tmp: seq<Char>, nanos: int): (r: Result<LocalDateTime>)
    requires 19 <= |tmp|
    ensures r.Ok? ==> ValidDateTime(r.value) && r.value.time.nano == nanos
  {
    DateTimeOf(NumberConverter.Read4(tmp, 0), NumberConverter.Read2(tmp, 5), NumberConverter.Read2(tmp, 8),
      NumberConverter.Read2(tmp, 11), NumberConverter.Read2(tmp, 14), NumberConverter.Read2(tmp, 17), nanos)
  }

  /** `LocalTime.of` over the fields at their fixed positions. */
  function TimeAt(tmp: seq<Char>, nanos: int): (r: Result<LocalTime>)
    requires 8 <= |tmp|
    ensures r.Ok? ==> ValidTime(r.value) && r.value.nano == nanos
  {
    TimeOf(NumberConverter.Read2(tmp, 0), NumberConverter.Read2(tmp, 3), NumberConverter.Read2(tmp, 6), nanos)
  }

  /** A `±HH:MM` suffix ending at `len`. */
  predicate OffsetSuffix(tmp: seq<Char>, len: int)
    requires 6 <= len <= |tmp|
  {
    && tmp[len - 3] == COLON && (tmp[len - 6] == PLUS || tmp[len - 6] == MINUS)
    && DigitsBetween(tmp, len - 2, len) && DigitsBetween(tmp, len - 5, len - 3)
  }

  /** `ZoneOffset.ofHoursMinutes` over a `±HH:MM` suffix. As written
      (`signedMinutes` false) only the hours take the sign; with
      `signedMinutes` the minutes take it too. */
  function SuffixOffset(tmp: seq<Char>, len: int, signedMinutes: bool): (r: Result<ZoneOffset>)
    requires 6 <= len <= |tmp|
    ensures r.Ok? ==> ValidOffset(r.value)
  {
    var offHour := NumberConverter.Read2(tmp, len - 5);
    var offMin := NumberConverter.Read2(tmp, len - 2);
    var positive := tmp[len - 6] == PLUS;
    OfHoursMinutes(if positive then offHour else -offHour, if signedMinutes && !positive then -offMin else offMin)
  }

  /** The nanoseconds when a dot follows the seconds at `dot`, zero
      otherwise. */
  function NanosAfter(tmp: seq<Char>, dot: int, end: int): Result<int>
    requires 0 <= dot < |tmp|
  {
    if tmp[dot] == DOT then ReadNanos(tmp, end, dot + 1) else Ok(0)
  }

  // ---------------------------------------------------------------------
  // Deserializers

  /** `deserializeLocalDate(reader)`: `YYYY-MM-DD`, and the short forms
      `YYYY-M-D`, `YYYY-M-DD` and `YYYY-MM-D`; the fields are read at their
      positions without checking that they are digits. */
  function DeserializeLocalDate(tmp: seq<Char>, len: int): (r: Result<Parsed<LocalDate>>)
    requires 0 <= len <= |tmp|
    ensures r.Ok? && r.value.Value? ==> ValidDate(r.value.value)
    ensures r.Ok? && r.value.Fallback? ==> r.value.text == tmp[..len]
    ensures r.Err? ==> r.error == DateTimeInvalid
    ensures len !in {8, 9, 10} ==> r == Ok(Fallback(tmp[..len]))
  {
    if len == 10 && tmp[4] == MINUS && tmp[7] == MINUS then
      var d :- DateOf(NumberConverter.Read4(tmp, 0), NumberConverter.Read2(tmp, 5), NumberConverter.Read2(tmp, 8));
      Ok(Value(d))
    else if len == 8 && tmp[4] == MINUS && tmp[6] == MINUS then
      var d :- DateOf(NumberConverter.Read4(tmp, 0), tmp[5] as int - 48, tmp[7] as int - 48);
      Ok(Value(d))
    else if len == 9 && tmp[4] == MINUS then
      if tmp[6] == MINUS then
        var d :- DateOf(NumberConverter.Read4(tmp, 0), tmp[5] as int - 48, NumberConverter.Read2(tmp, 7));
        Ok(Value(d))
      else if tmp[7] == MINUS then
        var d :- DateOf(NumberConverter.Read4(tmp, 0), NumberConverter.Read2(tmp, 5), tmp[8] as int - 48);
        Ok(Value(d))
      else Ok(Fallback(tmp[..len]))
    else Ok(Fallback(tmp[..len]))
  }

  /** `deserializeLocalTime(reader)`: `HH:MM:SS` and an optional fraction,
      for any text of at least eight characters whose separators sit at 2
      and 5 and whose characters from 9 on are digits. */
  function DeserializeLocalTime(tmp: seq<Char>, len: int): (r: Result<Parsed<LocalTime>>)
    requires 0 <= len <= |tmp|
    ensures r.Ok? && r.value.Value? ==> ValidTime(r.value.value)
    ensures r.Ok? && r.value.Fallback? ==> r.value.text == tmp[..len]
    ensures r.Err? ==> r.error == DateTimeInvalid || r.error == IndexOutOfBounds
    ensures len <= 7 ==> r == Ok(Fallback(tmp[..len]))
  {
    if len > 7 && tmp[2] == COLON && tmp[5] == COLON && DigitsBetween(tmp, 9, len) then
      var nanos :- if len > 8 then NanosAfter(tmp, 8, len) else Ok(0);
      var t :- TimeAt(tmp, nanos);
      Ok(Value(t))
    else Ok(Fallback(tmp[..len]))
  }

  /** `deserializeLocalDateTime(reader)`: `YYYY-MM-DDTHH:MM:SS` and an
      optional fraction, 19 to 29 characters. */
  function DeserializeLocalDateTime(tmp: seq<Char>, len: int): (r: Result<Parsed<LocalDateTime>>)
    requires 0 <= len <= |tmp|
    ensures r.Ok? && r.value.Value? ==> ValidDateTime(r.value.value)
    ensures r.Ok? && r.value.Fallback? ==> r.value.text == tmp[..len]
    ensures r.Err? ==> r.error == DateTimeInvalid || r.error == IndexOutOfBounds
    ensures (len < 19 || 29 < len) ==> r == Ok(Fallback(tmp[..len]))
  {
    if 18 < len < 30 && DateTimeShape(tmp) && DigitsBetween(tmp, 20, len) then
      var nanos :- if len > 19 then NanosAfter(tmp, 19, len) else Ok(0);
      var dt :- DateTimeAt(tmp, nanos);
      Ok(Value(dt))
    else Ok(Fallback(tmp[..len]))
  }

  /** The fast paths of `deserializeDateTime(reader)`: a `Z` suffix (20 to
      30 characters) or a `±HH:MM` suffix (23 to 35 characters) after
      `YYYY-MM-DDTHH:MM:SS` and an optional fraction. */
  function ParseOffsetDateTime(tmp: seq<Char>, len: int, signedMinutes: bool): (r: Result<Parsed<OffsetDateTime>>)
    requires 0 <= len <= |tmp|
    ensures r.Ok? && r.value.Value? ==> ValidDateTime(r.value.value.dateTime) && ValidOffset(r.value.value.offset)
    ensures r.Ok? && r.value.Fallback? ==> r.value.text == tmp[..len]
    ensures r.Err? ==> r.error == DateTimeInvalid || r.error == IndexOutOfBounds
    ensures (len < 20 || 35 < len) ==> r == Ok(Fallback(tmp[..len]))
  {
    if 19 < len < 31 && tmp[len - 1] == ZULU && DateTimeShape(tmp) && DigitsBetween(tmp, 20, len - 1) then
      var nanos :- NanosAfter(tmp, 19, len - 1);
      var dt :- DateTimeAt(tmp, nanos);
      Ok(Value(OffsetDateTime(dt, UTC)))
    else if 22 < len < 36 && OffsetSuffix(tmp, len) && DateTimeShape(tmp) then
      var offset :- SuffixOffset(tmp, len, signedMinutes);
      var nanos :- NanosAfter(tmp, 19, len - 6);
      var dt :- DateTimeAt(tmp, nanos);
      Ok(Value(OffsetDateTime(dt, offset)))
    else Ok(Fallback(tmp[..len]))
  }

  /** `deserializeDateTime(reader)` as written: the minutes of a negative
      offset keep their positive sign. */
  function DeserializeDateTime(tmp: seq<Char>, len: int): Result<Parsed<OffsetDateTime>>
    requires 0 <= len <= |tmp|
  {
    ParseOffsetDateTime(tmp, len, false)
  }

  /** `deserializeDateTime(reader)` with the sign of a negative offset
      applied to its minutes as well. */
  function DeserializeDateTimeSigned(tmp: seq<Char>, len: int): Result<Parsed<OffsetDateTime>>
    requires 0 <= len <= |tmp|
  {
    ParseOffsetDateTime(tmp, len, true)
  }

  /** The fast paths of `deserializeOffsetTime(reader)`: a `Z` suffix (9 to
      19 characters) or a `±HH:MM` suffix (12 to 24 characters) after
      `HH:MM:SS` and an optional fraction. */
  function ParseOffsetTime(tmp: seq<Char>, len: int, signedMinutes: bool): (r: Result<Parsed<OffsetTime>>)
    requires 0 <= len <= |tmp|
    ensures r.Ok? && r.value.Value? ==> ValidTime(r.value.value.time) && ValidOffset(r.value.value.offset)
    ensures r.Ok? && r.value.Fallback? ==> r.value.text == tmp[..len]
    ensures r.Err? ==> r.error == DateTimeInvalid || r.error == IndexOutOfBounds
    ensures (len < 9 || 24 < len) ==> r == Ok(Fallback(tmp[..len]))
  {
    if 8 < len < 20 && tmp[len - 1] == ZULU && tmp[2] == COLON && tmp[5] == COLON && DigitsBetween(tmp, 9, len - 1) then
      var nanos :- NanosAfter(tmp, 8, len - 1);
      var t :- TimeAt(tmp, nanos);
      Ok(Value(OffsetTime(t, UTC)))
    else if 11 < len < 25 && OffsetSuffix(tmp, len) && tmp[2] == COLON && tmp[5] == COLON then
      var offset :- SuffixOffset(tmp, len, signedMinutes);
      var nanos :- NanosAfter(tmp, 8, len - 6);
      var t :- TimeAt(tmp, nanos);
      Ok(Value(OffsetTime(t, offset)))
    else Ok(Fallback(tmp[..len]))
  }

  /** `deserializeOffsetTime(reader)` as written. */
  function DeserializeOffsetTime(tmp: seq<Char>, len: int): Result<Parsed<OffsetTime>>
    requires 0 <= len <= |tmp|
  {
    ParseOffsetTime(tmp, len, false)
  }

  /** `deserializeOffsetTime(reader)` with the sign of a negative offset
      applied to its minutes as well. */
  function DeserializeOffsetTimeSigned(tmp: seq<Char>, len: int): Result<Parsed<OffsetTime>>
    requires 0 <= len <= |tmp|
  {
    ParseOffsetTime(tmp, len, true)
  }
}
