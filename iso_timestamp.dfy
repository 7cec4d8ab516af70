/** `datetime.fromisoformat` as the API extractor uses it, restricted to the
    timestamps every supported Python accepts: `YYYY-MM-DD`, optionally
    followed by `T` or a space, `HH:MM:SS`, an optional fraction of 3 or 6
    digits and an optional offset `+HH:MM` or `-HH:MM`. Only the calendar date
    is kept: `strftime("%Y-%m-%d")` of the parsed value, with no conversion of
    the offset. */
module IsoTimestamp {
  import opened Wrappers
  import opened Text
  import opened Calendar

  /** Two digits at `t[i..i+2]` whose number is below `bound`. */
  predicate TwoDigitsBelow(t: string, i: nat, bound: nat) {
    i + 2 <= |t| && IsDigit(t[i]) && IsDigit(t[i + 1])
    && DigitValue(t[i]) * 10 + DigitValue(t[i + 1]) < bound
  }

  /** An absent offset, or `+HH:MM` / `-HH:MM`. */
  predicate OffsetOk(v: string) {
    v == [] || (|v| == 6 && (v[0] == '+' || v[0] == '-') && TwoDigitsBelow(v, 1, 24)
                && v[3] == ':' && TwoDigitsBelow(v, 4, 60))
  }

  /** An optional `.fff` or `.ffffff` and then an optional offset. */
  predicate FractionAndOffsetOk(u: string) {
    OffsetOk(u)
    || (|u| >= 4 && u[0] == '.' && AllDigits(u[1..4]) && OffsetOk(u[4..]))
    || (|u| >= 7 && u[0] == '.' && AllDigits(u[1..7]) && OffsetOk(u[7..]))
  }

  /** `HH:MM:SS` with hours below 24 and minutes and seconds below 60, then
      the optional fraction and offset. */
  predicate TimeOk(t: string) {
    |t| >= 8 && TwoDigitsBelow(t, 0, 24) && t[2] == ':' && TwoDigitsBelow(t, 3, 60)
    && t[5] == ':' && TwoDigitsBelow(t, 6, 60) && FractionAndOffsetOk(t[8..])
  }

  /** The calendar date of `datetime.fromisoformat(s)`; None for the
      ValueError it raises. A parsed timestamp's date is the one written in
      its first ten characters, whatever its offset. */
  function FromIsoFormat(s: string): (r: Option<Date>)
    ensures r.Some? ==> |s| >= 10 && ValidDate(r.value) && Format(r.value) == s[..10]
  {
    if |s| < 10 || !IsIsoShape(s[..10]) then None
    else
      var d := DateOfIso(s[..10]);
      if !ValidDate(d) then None
      else if |s| == 10 || ((s[10] == 'T' || s[10] == ' ') && TimeOk(s[11..])) then
        FormatOfIsoText(s[..10]);
        Some(d)
      else None
  }
}
