/** `create_event` (integrations/google/calendar/service.py): build the event body
    from the required fields, add the optional keys whose values are truthy, send it
    with `events().insert(calendarId="primary", ...)` and report the event's link.

    The insert request is given by `insert`: the "htmlLink" of the event it returns,
    None when that key is absent, or the exception `execute()` raises, which
    create_event does not catch. */
module Calendar {
  import opened Common

  /** The JSON values an event body is made of. */
  datatype Json = JStr(s: string) | JObj(fields: map<string, Json>) | JArr(items: seq<Json>)

  const DefaultTimeZone: string := "America/Los_Angeles"
  const Confirmation: string := "Event created: "

  /** Python truthiness of an optional string: present and not empty. */
  predicate Truthy(s: Option<string>)
  {
    s.Some? && s.value != ""
  }

  /** Python truthiness of an optional list: present and not empty. */
  predicate NonEmpty(l: Option<seq<string>>)
  {
    l.Some? && l.value != []
  }

  /** A `{"dateTime": ..., "timeZone": ...}` object. */
  function TimePoint(dateTime: string, timeZone: string): Json
  {
    JObj(map["dateTime" := JStr(dateTime), "timeZone" := JStr(timeZone)])
  }

  /** `[{"email": a} for a in attendees]`. */
  function AttendeeList(emails: seq<string>): seq<Json>
  {
    seq(|emails|, i requires 0 <= i < |emails| => JObj(map["email" := JStr(emails[i])]))
  }

  /** `"%s" % value` of the link: the text itself, "None" when absent. */
  function LinkText(link: Option<string>): string
  {
    if link.Some? then link.value else "None"
  }

  /** create_event: the body always has summary, start and end carrying the arguments;
      "location", "description" and "attendees" are present exactly when their
      arguments are truthy; the result names the link of the created event, and an
      exception from the insert request escapes unchanged. */
  method CreateEvent(summary: string, startDateTime: string, endDateTime: string,
                     insert: map<string, Json> -> Result<Option<string>>,
                     location: Option<string> := None, description: Option<string> := None,
                     startTimeZone: string := DefaultTimeZone, endTimeZone: string := DefaultTimeZone,
                     attendees: Option<seq<string>> := None)
    returns (message: Result<string>, sent: map<string, Json>)
    ensures "summary" in sent && sent["summary"] == JStr(summary)
    ensures "start" in sent && sent["start"] == TimePoint(startDateTime, startTimeZone)
    ensures "end" in sent && sent["end"] == TimePoint(endDateTime, endTimeZone)
    ensures "location" in sent <==> Truthy(location)
    ensures "location" in sent ==> sent["location"] == JStr(location.value)
    ensures "description" in sent <==> Truthy(description)
    ensures "description" in sent ==> sent["description"] == JStr(description.value)
    ensures "attendees" in sent <==> NonEmpty(attendees)
    ensures "attendees" in sent ==> sent["attendees"] == JArr(AttendeeList(attendees.value))
    ensures sent.Keys <= {"summary", "start", "end", "location", "description", "attendees"}
    ensures message.Ok? <==> insert(sent).Ok?
    ensures insert(sent).Raised? ==> message == Raised(insert(sent).error)
    ensures message.Ok? ==> |message.value| >= |Confirmation| && message.value[..|Confirmation|] == Confirmation
    ensures message.Ok? ==> message.value[|Confirmation|..] == LinkText(insert(sent).value)
  {
    var event: map<string, Json> := map[
      "summary" := JStr(summary),
      "start" := TimePoint(startDateTime, startTimeZone),
      "end" := TimePoint(endDateTime, endTimeZone)
    ];
    if Truthy(location) {
      event := event["location" := JStr(location.value)];
    }
    if Truthy(description) {
      event := event["description" := JStr(description.value)];
    }
    if NonEmpty(attendees) {
      event := event["attendees" := JArr(AttendeeList(attendees.value))];
    }
    sent := event;
    var created := insert(event);
    if created.Raised? {
      return Raised(created.error), sent;
    }
    var text := Confirmation + LinkText(created.value);
    assert text[..|Confirmation|] == Confirmation;
    assert text[|Confirmation|..] == LinkText(created.value);
    message := Ok(text);
  }
}
