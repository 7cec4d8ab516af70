/** `HuggingFaceModelUpdater.extract_update_time_from_api`: the decoded
    answer of the model API, reduced to an update date. The HTTP request is
    not modelled; its outcome is an input. */
module ApiExtract {
  import opened Wrappers
  import opened Text
  import opened Calendar
  import opened IsoTimestamp

  /** A JSON value under one of the two keys: a string, or anything else
      (which has no `replace` method, so parsing it fails). */
  datatype JsonValue = JString(text: string) | JNonString

  /** The decoded body when it is a JSON object: which of the two keys it
      has, and their values. */
  datatype Payload = Payload(lastModified: Option<JsonValue>, createdAt: Option<JsonValue>)

  /** The outcome of `session.get(api_url, timeout=10)` and `response.json()`:
      the request raised, or a status and a body that decodes to an object
      (None when it is not JSON or not an object, which raises inside the
      try block). */
  datatype ApiResponse = ApiRequestFailed | ApiReply(status: int, body: Option<Payload>)

  /** Replacing `Z` leaves the first ten characters of a timestamp alone
      when the result starts with a `\d{4}-\d{2}-\d{2}` date. */
  lemma ReplacementKeepsDate(t: string, u: string)
    requires u == ReplaceChar(t, 'Z', "+00:00")
    requires |u| >= 10 && IsIsoShape(u[..10])
    ensures |t| >= 10 && t[..10] == u[..10]
  {
    var p := u[..10];
    IsoShapeChars(p);
    assert forall j :: 0 <= j < 10 ==> u[j] == p[j];
    ReplaceCharPrefixUntouched(t, 'Z', "+00:00", 10);
  }

  /** The date the timestamp `t` yields after the `Z` replacement, when it
      parses, is the one written in `t`'s first ten characters. */
  lemma ParsedDateIsWritten(t: string)
    requires FromIsoFormat(ReplaceChar(t, 'Z', "+00:00")).Some?
    ensures |t| >= 10 && Format(FromIsoFormat(ReplaceChar(t, 'Z', "+00:00")).value) == t[..10]
  {
    var u := ReplaceChar(t, 'Z', "+00:00");
    var d := FromIsoFormat(u).value;
    assert Format(d) == u[..10];
    ReplacementKeepsDate(t, u);
  }

  /** `datetime.fromisoformat(value.replace('Z', '+00:00')).strftime("%Y-%m-%d")`,
      None when any step of it raises. A parsed timestamp yields exactly the
      date written at its start, in `YYYY-MM-DD` form: no time-zone
      conversion takes place. */
  function TimestampDate(v: JsonValue): (r: Option<string>)
    ensures r.Some? ==> v.JString? && |v.text| >= 10 && r.value == v.text[..10]
    ensures r.Some? ==> IsIsoShape(r.value)
  {
    match v
    case JNonString => None
    case JString(t) =>
      match FromIsoFormat(ReplaceChar(t, 'Z', "+00:00"))
      case Some(d) => ParsedDateIsWritten(t); Some(Format(d))
      case None => None
  }

  function FieldDate(f: Option<JsonValue>): Option<string> {
    if f.None? then None else TimestampDate(f.value)
  }

  /** The date the API answer yields: `lastModified` when present and
      parseable, otherwise `createdAt`; None on a failed request, a status
      other than 200 or a body that is not a JSON object. The date is the
      chosen timestamp's own, in canonical form. */
  function ExtractFromApi(o: ApiResponse): (r: Option<string>)
    ensures r.Some? <==>
      o.ApiReply? && o.status == 200 && o.body.Some?
      && (FieldDate(o.body.value.lastModified).Some? || FieldDate(o.body.value.createdAt).Some?)
    ensures o.ApiReply? && o.status == 200 && o.body.Some? && FieldDate(o.body.value.lastModified).Some?
      ==> r == Some(o.body.value.lastModified.value.text[..10])
    ensures (o.ApiReply? && o.status == 200 && o.body.Some? && FieldDate(o.body.value.lastModified).None?
             && FieldDate(o.body.value.createdAt).Some?)
      ==> r == Some(o.body.value.createdAt.value.text[..10])
    ensures r.Some? ==> IsIsoShape(r.value)
  {
    match o
    case ApiRequestFailed => None
    case ApiReply(status, body) =>
      if status != 200 || body.None? then None
      else FieldDate(body.value.lastModified).OrElse(FieldDate(body.value.createdAt))
  }

  /** The scenario of a typical API answer: `lastModified` with a UTC suffix. */
  lemma ExtractFromApiExample(t: string)
    requires t == "2024-01-25T10:00:00Z"
    ensures ExtractFromApi(ApiReply(200, Some(Payload(Some(JString(t)), None)))) == Some("2024-01-25")
  {
    UtcExampleParses(t);
    LiteralTimestampDate(t);
    assert t[..10] == "2024-01-25";
  }

  /** A negative offset does not move the date to the next UTC day. */
  lemma ExtractFromApiNoTimeZoneShift(t: string)
    requires t == "2024-01-25T23:30:00-05:00"
    ensures ExtractFromApi(ApiReply(200, Some(Payload(Some(JString(t)), None)))) == Some("2024-01-25")
  {
    OffsetExampleParses(t);
    LiteralTimestampDate(t);
    assert t[..10] == "2024-01-25";
  }

  lemma UtcExampleParses(t: string)
    requires t == "2024-01-25T10:00:00Z"
    ensures FromIsoFormat(ReplaceChar(t, 'Z', "+00:00")).Some?
  {
    UtcExampleReplaced(t);
    DateTextExample(ReplaceChar(t, 'Z', "+00:00"));
  }

  lemma UtcExampleReplaced(t: string)
    requires t == "2024-01-25T10:00:00Z"
    ensures ReplaceChar(t, 'Z', "+00:00") == "2024-01-25T10:00:00+00:00"
  {
    UtcExampleSplit(t);
    UtcSuffixReplaced("2024-01-25T10:00:00", t);
  }

  lemma UtcExampleSplit(t: string)
    requires t == "2024-01-25T10:00:00Z"
    ensures t == "2024-01-25T10:00:00" + "Z"
  {
  }

  lemma UtcSuffixReplaced(head: string, t: string)
    requires head == "2024-01-25T10:00:00" && t == head + "Z"
    ensures ReplaceChar(t, 'Z', "+00:00") == "2024-01-25T10:00:00+00:00"
  {
    ReplaceCharAppend(head, "Z", 'Z', "+00:00");
    ReplaceCharAbsent(head, 'Z', "+00:00");
    var z := "Z";
    assert z[1..] == [];
  }

  lemma OffsetExampleParses(t: string)
    requires t == "2024-01-25T23:30:00-05:00"
    ensures FromIsoFormat(ReplaceChar(t, 'Z', "+00:00")).Some?
  {
    OffsetExampleHasNoZ(t);
    ReplaceCharAbsent(t, 'Z', "+00:00");
    DateTextExample(t);
  }

  lemma OffsetExampleHasNoZ(t: string)
    requires t == "2024-01-25T23:30:00-05:00"
    ensures forall j :: 0 <= j < |t| ==> t[j] != 'Z'
  {
  }

  /** A string-valued `lastModified` whose date parses is what the API extractor returns. */
  lemma LiteralTimestampDate(t: string)
    requires |t| >= 10 && FromIsoFormat(ReplaceChar(t, 'Z', "+00:00")).Some?
    ensures ExtractFromApi(ApiReply(200, Some(Payload(Some(JString(t)), None)))) == Some(t[..10])
  {
    assert TimestampDate(JString(t)).Some?;
  }

  /** The example timestamps parse. */
  lemma DateTextExample(u: string)
    requires u == "2024-01-25T10:00:00+00:00" || u == "2024-01-25T23:30:00-05:00"
    ensures FromIsoFormat(u).Some?
  {
    var t := u[11..];
    TimestampSplit(u, t);
    TimeExampleOk(t);
    TimestampParses(u, t);
  }

  /** The example timestamps are the example date, `T` and a time. */
  lemma TimestampSplit(u: string, t: string)
    requires u == "2024-01-25T10:00:00+00:00" || u == "2024-01-25T23:30:00-05:00"
    requires t == u[11..]
    ensures u == "2024-01-25T" + t
    ensures t == "10:00:00+00:00" || t == "23:30:00-05:00"
  {
    assert u[..11] == "2024-01-25T";
    assert u == u[..11] + u[11..];
  }

  lemma TimeExampleOk(t: string)
    requires t == "10:00:00+00:00" || t == "23:30:00-05:00"
    ensures TimeOk(t)
  {
    assert t[8..] == t[8..14];
  }

  /** The example date, `T` and a time that is accepted. */
  lemma TimestampParses(u: string, t: string)
    requires u == "2024-01-25T" + t && TimeOk(t)
    ensures FromIsoFormat(u).Some?
  {
    assert u[..10] == "2024-01-25";
    assert u[11..] == t;
    IsoDateExample();
  }

  lemma IsoDateExample()
    ensures IsIsoShape("2024-01-25") && DateOfIso("2024-01-25") == Date(2024, 1, 25)
  {
    var p := "2024-01-25";
    FourDigitsValue(p[..4]);
    TwoDigitsValue(p[5..7]);
    TwoDigitsValue(p[8..]);
  }
}
