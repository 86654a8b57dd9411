// utilsPrivate/formatUtils.js: the options record handed to the date
// formatter, and the guards around the injected date and number formatters.
// The formatters and the validators (isValidDate, isValidLatitude,
// isValidLongitude, the global isFinite) are parameters.

module FormatUtils {
  import opened JsValues

  /** The dateTimeFormat options object, its properties in the order the
      literal lists them. */
  datatype DateTimeOptions = DateTimeOptions(
    weekday: JsValue, era: JsValue, year: JsValue, month: JsValue, day: JsValue,
    hour: JsValue, hourCycle: JsValue, hour12: JsValue, minute: JsValue,
    second: JsValue, timeZoneName: JsValue, timeZone: JsValue)

  /** The options with the ten plain properties copied from the instance
      and neither hour setting. */
  function PlainOptions(instance: map<string, JsValue>): DateTimeOptions {
    DateTimeOptions(
      Prop(instance, "weekday"), Prop(instance, "era"), Prop(instance, "year"),
      Prop(instance, "month"), Prop(instance, "day"), Prop(instance, "hour"),
      Undef, Undef, Prop(instance, "minute"), Prop(instance, "second"),
      Prop(instance, "timeZoneName"), Prop(instance, "timeZone"))
  }

  /** The hour settings: nothing unless `_hour12Set` is truthy; then
      hour12 === false becomes hourCycle 'h23' and any other hour12 is
      passed on. */
  function WithHourSettings(options: DateTimeOptions, set12: bool, hour12: JsValue): DateTimeOptions {
    if set12 then
      if StrictEquals(hour12, Bool(false)) then options.(hourCycle := Str("h23"))
      else options.(hour12 := hour12)
    else options
  }

  /** toDateTimeFormatOptions(instance), the instance given by its
      properties. */
  function ToDateTimeFormatOptions(instance: map<string, JsValue>): (options: DateTimeOptions)
  {
    WithHourSettings(PlainOptions(instance), Truthy(Prop(instance, "_hour12Set")), Prop(instance, "hour12"))
  }

  /** The hour settings touch only hourCycle and hour12. */
  lemma HourSettingsKeep(options: DateTimeOptions, set12: bool, hour12: JsValue)
    ensures WithHourSettings(options, set12, hour12).(hourCycle := Undef, hour12 := Undef) ==
      options.(hourCycle := Undef, hour12 := Undef)
  {
  }

  /** The ten plain options are the instance's own values, whatever the
      hour settings. */
  lemma OptionsCopied(instance: map<string, JsValue>)
    ensures var o := ToDateTimeFormatOptions(instance);
      o.weekday == Prop(instance, "weekday") && o.era == Prop(instance, "era") &&
      o.year == Prop(instance, "year") && o.month == Prop(instance, "month") &&
      o.day == Prop(instance, "day") && o.hour == Prop(instance, "hour") &&
      o.minute == Prop(instance, "minute") && o.second == Prop(instance, "second") &&
      o.timeZoneName == Prop(instance, "timeZoneName") && o.timeZone == Prop(instance, "timeZone")
  {
    var p := PlainOptions(instance);
    var o := ToDateTimeFormatOptions(instance);
    HourSettingsKeep(p, Truthy(Prop(instance, "_hour12Set")), Prop(instance, "hour12"));
    assert o.(hourCycle := Undef, hour12 := Undef) == p;
  }

  /** The three cases of the hour settings. The formatter never sees
      hour12 set to false, and never both hourCycle and hour12. */
  lemma HourSettings(instance: map<string, JsValue>)
    ensures var o := ToDateTimeFormatOptions(instance);
      var set12 := Truthy(Prop(instance, "_hour12Set"));
      var hour12 := Prop(instance, "hour12");
      (!set12 ==> o.hourCycle == Undef && o.hour12 == Undef) &&
      (set12 && hour12 == Bool(false) ==> o.hourCycle == Str("h23") && o.hour12 == Undef) &&
      (set12 && hour12 != Bool(false) ==> o.hourCycle == Undef && o.hour12 == hour12) &&
      o.hour12 != Bool(false) && (o.hourCycle == Undef || o.hour12 == Undef)
  {
    HourCases(PlainOptions(instance), Truthy(Prop(instance, "_hour12Set")), Prop(instance, "hour12"));
  }

  /** The hour settings applied to options that have neither. */
  lemma HourCases(options: DateTimeOptions, set12: bool, hour12: JsValue)
    requires options.hourCycle == Undef && options.hour12 == Undef
    ensures var o := WithHourSettings(options, set12, hour12);
      (!set12 ==> o.hourCycle == Undef && o.hour12 == Undef) &&
      (set12 && hour12 == Bool(false) ==> o.hourCycle == Str("h23") && o.hour12 == Undef) &&
      (set12 && hour12 != Bool(false) ==> o.hourCycle == Undef && o.hour12 == hour12) &&
      o.hour12 != Bool(false) && (o.hourCycle == Undef || o.hour12 == Undef)
  {
  }

  /** What a formatting helper returns, and whether it logged a warning. */
  datatype Formatted = Formatted(text: string, warned: bool)

  /** toFormattedDate(instance, dateTimeFormat): the formatter's text for a
      valid date when it is non-empty, otherwise '' with a warning for a
      truthy value. `dateTimeFormat(options, dateStyle, value)` stands for
      dateTimeFormat(options, dateStyle).format(value). */
  function ToFormattedDate(instance: map<string, JsValue>, isValidDate: JsValue -> bool,
                           dateTimeFormat: (DateTimeOptions, JsValue, JsValue) -> string): (r: Formatted)
  {
    var value := Prop(instance, "value");
    if isValidDate(value) && dateTimeFormat(ToDateTimeFormatOptions(instance), Prop(instance, "dateStyle"), value) != "" then
      Formatted(dateTimeFormat(ToDateTimeFormatOptions(instance), Prop(instance, "dateStyle"), value), false)
    else Formatted("", Truthy(Prop(instance, "value")))
  }

  /** The result is '' exactly when the date is invalid or formats to '';
      otherwise it is what the formatter made of the instance's options and
      date style. A warning is logged only with an empty result and a truthy
      value. */
  lemma FormattedDateOutcome(instance: map<string, JsValue>, isValidDate: JsValue -> bool,
                             dateTimeFormat: (DateTimeOptions, JsValue, JsValue) -> string)
    ensures var r := ToFormattedDate(instance, isValidDate, dateTimeFormat);
      var value := Prop(instance, "value");
      var text := dateTimeFormat(ToDateTimeFormatOptions(instance), Prop(instance, "dateStyle"), value);
      (r.text == "" <==> !isValidDate(value) || text == "") &&
      (r.text != "" ==> r.text == text) &&
      (r.warned <==> r.text == "" && Truthy(value))
  {
  }

  /** The number formatter's options, in the order the literal lists them. */
  datatype NumberOptions = NumberOptions(
    style: JsValue, currency: JsValue, currencyDisplay: JsValue,
    minimumIntegerDigits: JsValue, minimumFractionDigits: JsValue, maximumFractionDigits: JsValue,
    minimumSignificantDigits: JsValue, maximumSignificantDigits: JsValue)

  /** The value guard: not null, undefined or '', and finite. */
  predicate Formattable(value: JsValue, isFinite: JsValue -> bool) {
    !StrictEquals(value, Null) && !StrictEquals(value, Undef) && !StrictEquals(value, Str("")) && isFinite(value)
  }

  /** toFormattedNumber(instance, numberFormat). `numberFormat(options, v)`
      stands for numberFormat(options).format(v); `percentFixed(value)` is
      the value divided by 100 and rounded back to its digits, which
      'percent-fixed' formats in place of String(value). */
  function ToFormattedNumber(instance: map<string, JsValue>, isFinite: JsValue -> bool,
                             percentFixed: JsValue -> JsValue,
                             numberFormat: (NumberOptions, JsValue) -> string): (r: string)
  {
    var value := Prop(instance, "value");
    if Formattable(value, isFinite) then
      var formatStyle := Prop(instance, "formatStyle");
      var options := NumberOptions(
        formatStyle, Prop(instance, "currencyCode"), Prop(instance, "currencyDisplayAs"),
        Prop(instance, "minimumIntegerDigits"), Prop(instance, "minimumFractionDigits"),
        Prop(instance, "maximumFractionDigits"), Prop(instance, "minimumSignificantDigits"),
        Prop(instance, "maximumSignificantDigits"));
      var valueToFormat := Str(ToStr(value));
      if StrictEquals(formatStyle, Str("percent-fixed")) then
        numberFormat(options.(style := Str("percent")), percentFixed(value))
      else numberFormat(options, valueToFormat)
    else ""
  }

  /** A value that is null, undefined, '' or not finite gives ''; any other
      is formatted: with style 'percent' and the scaled value for
      'percent-fixed', and otherwise with the instance's own style and the
      value as a string. */
  lemma FormattedNumberOutcome(instance: map<string, JsValue>, isFinite: JsValue -> bool,
                               percentFixed: JsValue -> JsValue,
                               numberFormat: (NumberOptions, JsValue) -> string,
                               options: NumberOptions)
    requires options == NumberOptions(
      Prop(instance, "formatStyle"), Prop(instance, "currencyCode"), Prop(instance, "currencyDisplayAs"),
      Prop(instance, "minimumIntegerDigits"), Prop(instance, "minimumFractionDigits"),
      Prop(instance, "maximumFractionDigits"), Prop(instance, "minimumSignificantDigits"),
      Prop(instance, "maximumSignificantDigits"))
    ensures var value := Prop(instance, "value");
      var r := ToFormattedNumber(instance, isFinite, percentFixed, numberFormat);
      (value in {Null, Undef, Str("")} || !isFinite(value) ==> r == "") &&
      (Formattable(value, isFinite) && options.style == Str("percent-fixed") ==>
        r == numberFormat(options.(style := Str("percent")), percentFixed(value))) &&
      (Formattable(value, isFinite) && options.style != Str("percent-fixed") ==>
        r == numberFormat(options, Str(ToStr(value))))
  {
  }

  /** The properties of the instance that toFormattedNumber reads. */
  const NumberKeys: set<string> := {"value", "formatStyle", "currencyCode", "currencyDisplayAs",
    "minimumIntegerDigits", "minimumFractionDigits", "maximumFractionDigits",
    "minimumSignificantDigits", "maximumSignificantDigits"}

  /** 'percent-fixed' is this component's own style: the number formatter
      is never handed the string 'percent-fixed' as its style. With a
      formatter that writes out the string style it is given, the result is
      never "percent-fixed". (An object whose text is 'percent-fixed' is not
      `===` to it and is handed on.) */
  lemma FormatterNeverSeesPercentFixed(instance: map<string, JsValue>, isFinite: JsValue -> bool,
                                       percentFixed: JsValue -> JsValue)
    ensures ToFormattedNumber(instance, isFinite, percentFixed,
      (o: NumberOptions, v: JsValue) => if o.style.Str? then o.style.s else "") != "percent-fixed"
  {
    var style := Prop(instance, "formatStyle");
    if Formattable(Prop(instance, "value"), isFinite) && !StrictEquals(style, Str("percent-fixed")) {
      assert style != Str("percent-fixed");
    }
  }

  /** The result depends on the instance only through the properties in
      NumberKeys. */
  lemma FormattedNumberReadsOnly(instance: map<string, JsValue>, other: map<string, JsValue>,
                                 isFinite: JsValue -> bool, percentFixed: JsValue -> JsValue,
                                 numberFormat: (NumberOptions, JsValue) -> string)
    requires forall k :: k in NumberKeys ==> Prop(instance, k) == Prop(other, k)
    ensures ToFormattedNumber(instance, isFinite, percentFixed, numberFormat) ==
      ToFormattedNumber(other, isFinite, percentFixed, numberFormat)
  {
  }

  /** toFormattedLocation(instance): "latitude, longitude" when both are
      valid, otherwise '' and a warning. */
  function ToFormattedLocation(instance: map<string, JsValue>, isValidLatitude: JsValue -> bool,
                               isValidLongitude: JsValue -> bool): (r: Formatted)
  {
    var latitude := Prop(instance, "latitude");
    var longitude := Prop(instance, "longitude");
    if isValidLatitude(latitude) && isValidLongitude(longitude) then
      Formatted(ToStr(latitude) + ", " + ToStr(longitude), false)
    else Formatted("", true)
  }

  /** Valid coordinates are written out, separated by ", "; anything else
      gives '' and a warning. */
  lemma FormattedLocationOutcome(instance: map<string, JsValue>, isValidLatitude: JsValue -> bool,
                                 isValidLongitude: JsValue -> bool)
    ensures var r := ToFormattedLocation(instance, isValidLatitude, isValidLongitude);
      var valid := isValidLatitude(Prop(instance, "latitude")) && isValidLongitude(Prop(instance, "longitude"));
      (valid ==> !r.warned && r.text[..|ToStr(Prop(instance, "latitude"))|] == ToStr(Prop(instance, "latitude")) &&
                 r.text[|ToStr(Prop(instance, "latitude"))|..] == ", " + ToStr(Prop(instance, "longitude"))) &&
      (!valid ==> r == Formatted("", true))
  {
  }
}
