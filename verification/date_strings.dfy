/**
  * The string conversions of the date utilities: formatting a date in the
  * display format, parsing a field value back into a date, deriving the month
  * to show, and normalising the text of the input. The date library's own
  * token parsing and formatting are not modelled: they are the `DateLib`
  * operations every function here takes as a parameter, and what is verified
  * is the empty-string and invalid-date fallbacks this layer adds around them.
  */
module DateStrings {

  /** `Date | ''`: a date, or the empty string that stands for "no date". */
  datatype DateOrEmpty<D> = NoDate | SomeDate(date: D)

  /** A `string | undefined` argument. */
  datatype MaybeString = Undefined | Str(s: string)

  /**
    * The date library as this layer sees it: `parse(text, pattern, reference)`,
    * `format(date, pattern)`, `isValid(date)`, and the local-time accessors
    * `getMonth` (0-based) and `getFullYear` of a date.
    */
  datatype DateLib<!D> = DateLib(
    parse: (string, string, D) -> D,
    format: (D, string) -> string,
    isValid: D -> bool,
    getMonth: D -> int,
    getFullYear: D -> int)

  /** The month shown by the calendar: `{ month, year }`, month 0-based. */
  datatype Period = Period(month: int, year: int)

  /** JavaScript truthiness of a `string | undefined`: only a non-empty string is truthy. */
  predicate Truthy(v: MaybeString)
  {
    v.Str? && v.s != ""
  }

  /**
    * `formatDateToString`: the empty string for no date, otherwise the date in
    * the display format (a `Date` object is always truthy).
    */
  function FormatDateToString<D>(lib: DateLib<D>, displayFormat: string, date: DateOrEmpty<D>): (r: string)
    ensures date == NoDate ==> r == ""
    ensures date.SomeDate? ==> r == lib.format(date.date, displayFormat)
  {
    match date
    case NoDate => ""
    case SomeDate(d) => lib.format(d, displayFormat)
  }

  /**
    * `parseDateString`: no date for an absent or empty string, and no date when
    * the library's parse result is not a valid date; otherwise that result,
    * unchanged. `now` is the reference date handed to the library.
    */
  function ParseDateString<D>(lib: DateLib<D>, displayFormat: string, now: D, dateString: MaybeString): (r: DateOrEmpty<D>)
    ensures !Truthy(dateString) ==> r == NoDate
    ensures r.SomeDate? ==> lib.isValid(r.date)
    ensures r.SomeDate? <==>
              Truthy(dateString) && lib.isValid(lib.parse(dateString.s, displayFormat, now))
    ensures r.SomeDate? ==> r.date == lib.parse(dateString.s, displayFormat, now)
  {
    if !Truthy(dateString) then NoDate
    else
      var parsed := lib.parse(dateString.s, displayFormat, now);
      if lib.isValid(parsed) then SomeDate(parsed) else NoDate
  }

  /**
    * `getPeriodFromValue`: the month and year of the parsed value when it
    * parses to a valid date, and those of `now` otherwise.
    */
  function GetPeriodFromValue<D>(lib: DateLib<D>, displayFormat: string, now: D, dateString: string): (p: Period)
    ensures dateString == "" ==> p == Period(lib.getMonth(now), lib.getFullYear(now))
    ensures var parsed := lib.parse(dateString, displayFormat, now);
      dateString != "" && lib.isValid(parsed) ==>
        p == Period(lib.getMonth(parsed), lib.getFullYear(parsed))
    ensures var parsed := lib.parse(dateString, displayFormat, now);
      !lib.isValid(parsed) ==> p == Period(lib.getMonth(now), lib.getFullYear(now))
  {
    var date := match ParseDateString(lib, displayFormat, now, Str(dateString))
      case SomeDate(d) => d
      case NoDate => now;
    Period(lib.getMonth(date), lib.getFullYear(date))
  }

  /**
    * `valueToInputFormat`: the value re-rendered in the display format when it
    * parses; the raw value, unchanged, when it does not (and also when the
    * rendering is empty, since an empty string is falsy).
    */
  function ValueToInputFormat<D>(lib: DateLib<D>, displayFormat: string, now: D, value: string): (r: string)
    ensures value == "" ==> r == ""
    ensures !lib.isValid(lib.parse(value, displayFormat, now)) ==> r == value
    ensures var parsed := lib.parse(value, displayFormat, now);
      value != "" && lib.isValid(parsed) && lib.format(parsed, displayFormat) != "" ==>
        r == lib.format(parsed, displayFormat)
    ensures r == value || (r != "" && r == lib.format(lib.parse(value, displayFormat, now), displayFormat))
  {
    var formatted := FormatDateToString(lib, displayFormat, ParseDateString(lib, displayFormat, now, Str(value)));
    if formatted != "" then formatted else value
  }

  /**
    * A format that the library parses back to the very same date: formatting
    * `d` yields a non-empty text that parses to `d` again.
    */
  ghost predicate RoundTrips<D>(lib: DateLib<D>, displayFormat: string, now: D, d: D)
  {
    var text := lib.format(d, displayFormat);
    text != "" && lib.parse(text, displayFormat, now) == d
  }

  /**
    * Formatting then parsing gives back a valid date exactly when the library
    * itself round-trips it: this layer's fallbacks neither get in the way nor
    * make up for a library that does not.
    */
  lemma ParseOfFormat<D>(lib: DateLib<D>, displayFormat: string, now: D, d: D)
    requires lib.isValid(d)
    ensures var text := FormatDateToString(lib, displayFormat, SomeDate(d));
      ParseDateString(lib, displayFormat, now, Str(text)) == SomeDate(d) <==> RoundTrips(lib, displayFormat, now, d)
  {
  }

  /**
    * A rendering the library reads back and renders identically: the text of
    * `d` parses to a valid date whose text is the same.
    */
  ghost predicate CanonicalText<D>(lib: DateLib<D>, displayFormat: string, now: D, d: D)
  {
    var text := lib.format(d, displayFormat);
    text != "" ==>
      lib.isValid(lib.parse(text, displayFormat, now)) &&
      lib.format(lib.parse(text, displayFormat, now), displayFormat) == text
  }

  /**
    * Normalising the input twice is normalising it once, whenever the parsed
    * date's rendering is canonical; an unparseable value is left alone both times.
    */
  lemma ValueToInputFormatIdempotent<D>(lib: DateLib<D>, displayFormat: string, now: D, value: string)
    requires CanonicalText(lib, displayFormat, now, lib.parse(value, displayFormat, now))
    ensures var once := ValueToInputFormat(lib, displayFormat, now, value);
      ValueToInputFormat(lib, displayFormat, now, once) == once
  {
    var once := ValueToInputFormat(lib, displayFormat, now, value);
    var parsed := lib.parse(value, displayFormat, now);
    if value != "" && lib.isValid(parsed) && lib.format(parsed, displayFormat) != "" {
      assert once == lib.format(parsed, displayFormat);
      var reparsed := lib.parse(once, displayFormat, now);
      assert lib.isValid(reparsed) && lib.format(reparsed, displayFormat) == once;
    } else {
      assert once == value;
    }
  }
}
