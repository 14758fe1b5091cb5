/** `sync` (integrations/google/gmail/sync.py): list the messages newer than the
    cursor, fetch the details of each, keep the non-empty records and advance the
    cursor to the latest Date seen.

    Each message id names its own `messages().get` request function (`fetchOf`);
    `parseDate` stands for `strptime(..., "%a, %d %b %Y %H:%M:%S %z").timestamp()`,
    None when the text does not match the format, and counts whole seconds. */
module Sync {
  import opened Common
  import opened Backoff
  import opened Listing
  import opened Details

  /** What sync returns: the kept records and the new cursor. */
  datatype Synced = Synced(emails: seq<EmailRecord>, cursor: int)

  function DigitChar(d: nat): (c: char)
    requires d < 10
    ensures '0' <= c <= '9'
  {
    (48 + d) as char
  }

  function DigitValue(c: char): (d: nat)
    requires '0' <= c <= '9'
    ensures d < 10
  {
    (c as int) - 48
  }

  predicate AllDigits(s: string)
  {
    forall i :: 0 <= i < |s| ==> '0' <= s[i] <= '9'
  }

  /** The decimal digits of n, most significant first, without leading zeros. */
  function DigitsOf(n: nat): string
    decreases n
  {
    if n < 10 then [DigitChar(n)] else DigitsOf(n / 10) + [DigitChar(n % 10)]
  }

  /** Python's `str(n)` for an integer. */
  function Decimal(n: int): string
  {
    if n < 0 then "-" + DigitsOf(-n) else DigitsOf(n)
  }

  /** The number a string of decimal digits denotes. */
  function DigitsValue(s: string): nat
    requires AllDigits(s)
    decreases |s|
  {
    if s == [] then 0 else 10 * DigitsValue(s[..|s| - 1]) + DigitValue(s[|s| - 1])
  }

  /** Reads back an optionally signed decimal integer. */
  function ParseDecimal(s: string): Option<int>
  {
    if |s| > 1 && s[0] == '-' && AllDigits(s[1..]) then Some(-(DigitsValue(s[1..]) as int))
    else if |s| > 0 && AllDigits(s) then Some(DigitsValue(s))
    else None
  }

  lemma {:induction false} DigitsRoundTrip(n: nat)
    ensures |DigitsOf(n)| > 0 && AllDigits(DigitsOf(n)) && DigitsValue(DigitsOf(n)) == n
    decreases n
  {
    if n >= 10 {
      DigitsRoundTrip(n / 10);
      var s := DigitsOf(n);
      assert s[..|s| - 1] == DigitsOf(n / 10);
    }
  }

  /** `str` on an integer reads back as that integer. */
  lemma {:induction false} DecimalRoundTrip(n: int)
    ensures ParseDecimal(Decimal(n)) == Some(n)
  {
    if n < 0 {
      DigitsRoundTrip(-n);
      assert Decimal(n)[1..] == DigitsOf(-n);
    } else {
      DigitsRoundTrip(n);
    }
  }

  /** The search query `f"after:{last_sync_at}"`. */
  function SyncQuery(lastSyncAt: int): string
  {
    "after:" + Decimal(lastSyncAt)
  }

  /** The query is "after:" followed by the cursor, which reads back from it. */
  lemma {:induction false} QueryCarriesCursor(lastSyncAt: int)
    ensures var q := SyncQuery(lastSyncAt);
            |q| > 6 && q[..6] == "after:" && ParseDecimal(q[6..]) == Some(lastSyncAt)
  {
    DecimalRoundTrip(lastSyncAt);
    DigitsRoundTrip(if lastSyncAt < 0 then -lastSyncAt else lastSyncAt);
    assert SyncQuery(lastSyncAt)[6..] == Decimal(lastSyncAt);
  }

  /** `email_details["headers"]["Date"]` read as a timestamp: strptime of a missing
      header (None) raises TypeError, of text not in the format ValueError. */
  function Timestamp(r: EmailRecord, parseDate: string -> Option<int>): Result<int>
  {
    if "Date" !in r.headers then Raised(KeyError("Date"))
    else
      match r.headers["Date"]
      case None => Raised(TypeError)
      case Some(text) =>
        match parseDate(text)
        case None => Raised(ValueError)
        case Some(t) => Ok(t)
  }

  /** The details get_email_details yields for a listed id. */
  function Fetched(id: string, fetchOf: string -> (nat -> Outcome<ApiMessage>), parse: string -> Option<MimeMessage>): Details
  {
    EmailDetailsSpec(fetchOf(id), parse, Integration)
  }

  /** The loop over the listed references: `msg["id"]` raises KeyError when the
      reference has no id; an empty record is skipped; a kept record's Date moves the
      cursor forward when it is later. An exception ends sync. */
  function Scan(refs: seq<MessageRef>, lastSyncAt: int, fetchOf: string -> (nat -> Outcome<ApiMessage>),
                parse: string -> Option<MimeMessage>, parseDate: string -> Option<int>): Result<Synced>
    decreases |refs|
  {
    if refs == [] then Ok(Synced([], lastSyncAt))
    else
      match Scan(refs[..|refs| - 1], lastSyncAt, fetchOf, parse, parseDate)
      case Raised(e) => Raised(e)
      case Ok(s) =>
        var ref := refs[|refs| - 1];
        if ref.id.None? then Raised(KeyError("id"))
        else
          match Fetched(ref.id.value, fetchOf, parse)
          case Empty => Ok(s)
          case Found(r) =>
            match Timestamp(r, parseDate)
            case Raised(e) => Raised(e)
            case Ok(t) => Ok(Synced(s.emails + [r], if t > s.cursor then t else s.cursor))
  }

  /** What one call of sync does against the listing provider. */
  ghost function SyncSpec(lastSyncAt: int, listing: Provider, fetchOf: string -> (nat -> Outcome<ApiMessage>),
                          parse: string -> Option<MimeMessage>, parseDate: string -> Option<int>, batchSize: int): Result<Synced>
    requires ProviderStops(listing)
  {
    Scan(ListEmailsSpec(listing, Integration, "me", SyncQuery(lastSyncAt), batchSize).refs, lastSyncAt, fetchOf, parse, parseDate)
  }

  /** sync: one listing with the cursor query and batch size, then one details fetch
      per reference; with nothing listed it returns no records and the cursor unchanged. */
  method Sync(lastSyncAt: int, listing: Provider, fetchOf: string -> (nat -> Outcome<ApiMessage>),
              parse: string -> Option<MimeMessage>, parseDate: string -> Option<int>, batchSize: int := 50)
    returns (result: Result<Synced>, requests: seq<ListRequest>)
    requires ProviderStops(listing)
    ensures result == SyncSpec(lastSyncAt, listing, fetchOf, parse, parseDate, batchSize)
    ensures requests == ListEmailsSpec(listing, Integration, "me", SyncQuery(lastSyncAt), batchSize).requests
    ensures ListEmailsSpec(listing, Integration, "me", SyncQuery(lastSyncAt), batchSize).refs == [] ==>
              result == Ok(Synced([], lastSyncAt))
  {
    var query := SyncQuery(lastSyncAt);
    var messages;
    messages, requests := ListEmails(listing, Integration, "me", query, batchSize);
    var emails: seq<EmailRecord> := [];
    var cursor := lastSyncAt;
    for i := 0 to |messages|
      invariant Scan(messages[..i], lastSyncAt, fetchOf, parse, parseDate) == Ok(Synced(emails, cursor))
    {
      assert messages[..i + 1][..i] == messages[..i];
      var msg := messages[i];
      if msg.id.None? {
        ScanFailureSticks(messages, i + 1, lastSyncAt, fetchOf, parse, parseDate);
        return Raised(KeyError("id")), requests;
      }
      var details := GetEmailDetails(fetchOf(msg.id.value), parse, Integration);
      if details.Found? {
        var r := details.record;
        var dt := Timestamp(r, parseDate);
        if dt.Raised? {
          ScanFailureSticks(messages, i + 1, lastSyncAt, fetchOf, parse, parseDate);
          return Raised(dt.error), requests;
        }
        if dt.value > cursor {
          cursor := dt.value;
        }
        emails := emails + [r];
      }
    }
    assert messages[..|messages|] == messages;
    result := Ok(Synced(emails, cursor));
  }

  /** An exception escaping at some reference is what sync raises. */
  lemma {:induction false} ScanFailureSticks(refs: seq<MessageRef>, k: nat, lastSyncAt: int,
                                             fetchOf: string -> (nat -> Outcome<ApiMessage>),
                                             parse: string -> Option<MimeMessage>, parseDate: string -> Option<int>)
    requires k <= |refs| && Scan(refs[..k], lastSyncAt, fetchOf, parse, parseDate).Raised?
    ensures Scan(refs, lastSyncAt, fetchOf, parse, parseDate) == Scan(refs[..k], lastSyncAt, fetchOf, parse, parseDate)
    decreases |refs| - k
  {
    if k < |refs| {
      assert refs[..k + 1][..k] == refs[..k];
      ScanFailureSticks(refs, k + 1, lastSyncAt, fetchOf, parse, parseDate);
    } else {
      assert refs[..k] == refs;
    }
  }

  /** Every reference carries an id. */
  predicate IdsPresent(refs: seq<MessageRef>)
  {
    forall i :: 0 <= i < |refs| ==> refs[i].id.Some?
  }

  /** The non-empty records of the references, in reference order. */
  function FoundRecords(refs: seq<MessageRef>, fetchOf: string -> (nat -> Outcome<ApiMessage>),
                        parse: string -> Option<MimeMessage>): seq<EmailRecord>
    requires IdsPresent(refs)
    decreases |refs|
  {
    if refs == [] then []
    else
      var before := FoundRecords(refs[..|refs| - 1], fetchOf, parse);
      match Fetched(refs[|refs| - 1].id.value, fetchOf, parse)
      case Empty => before
      case Found(r) => before + [r]
  }

  /** sync succeeds exactly when every reference has an id and every kept record's
      Date parses. */
  lemma {:induction false} ScanSucceeds(refs: seq<MessageRef>, lastSyncAt: int, fetchOf: string -> (nat -> Outcome<ApiMessage>),
                                        parse: string -> Option<MimeMessage>, parseDate: string -> Option<int>)
    ensures Scan(refs, lastSyncAt, fetchOf, parse, parseDate).Ok? <==>
              && IdsPresent(refs)
              && forall i :: 0 <= i < |refs| && Fetched(refs[i].id.value, fetchOf, parse).Found? ==>
                   Timestamp(Fetched(refs[i].id.value, fetchOf, parse).record, parseDate).Ok?
    decreases |refs|
  {
    if refs != [] {
      var init := refs[..|refs| - 1];
      ScanSucceeds(init, lastSyncAt, fetchOf, parse, parseDate);
      assert forall i :: 0 <= i < |init| ==> init[i] == refs[i];
    }
  }

  /** A successful sync returns the non-empty records in reference order, and a cursor
      that is at least the input, at least every kept record's timestamp, and equal to
      the input or to one of those timestamps. */
  lemma {:induction false} ScanOutcome(refs: seq<MessageRef>, lastSyncAt: int, fetchOf: string -> (nat -> Outcome<ApiMessage>),
                                       parse: string -> Option<MimeMessage>, parseDate: string -> Option<int>)
    ensures Scan(refs, lastSyncAt, fetchOf, parse, parseDate).Ok? ==>
              var s := Scan(refs, lastSyncAt, fetchOf, parse, parseDate).value;
              && IdsPresent(refs)
              && s.emails == FoundRecords(refs, fetchOf, parse)
              && s.cursor >= lastSyncAt
              && (forall i :: 0 <= i < |s.emails| ==>
                    Timestamp(s.emails[i], parseDate).Ok? && Timestamp(s.emails[i], parseDate).value <= s.cursor)
              && (s.cursor == lastSyncAt ||
                  exists i :: 0 <= i < |s.emails| && Timestamp(s.emails[i], parseDate) == Ok(s.cursor))
    decreases |refs|
  {
    if refs != [] {
      var init := refs[..|refs| - 1];
      ScanOutcome(init, lastSyncAt, fetchOf, parse, parseDate);
      assert forall i :: 0 <= i < |init| ==> init[i] == refs[i];
      var prev := Scan(init, lastSyncAt, fetchOf, parse, parseDate);
      if prev.Ok? && refs[|refs| - 1].id.Some? {
        var s := prev.value;
        match Fetched(refs[|refs| - 1].id.value, fetchOf, parse)
        case Empty =>
        case Found(r) =>
          if Timestamp(r, parseDate).Ok? {
            var t := Timestamp(r, parseDate).value;
            var emails := s.emails + [r];
            assert emails[|s.emails|] == r;
            assert forall i :: 0 <= i < |s.emails| ==> emails[i] == s.emails[i];
            if t <= s.cursor && s.cursor != lastSyncAt {
              var j :| 0 <= j < |s.emails| && Timestamp(s.emails[j], parseDate) == Ok(s.cursor);
              assert emails[j] == s.emails[j];
            }
          }
      }
    }
  }

  /** The cursor never goes backwards. */
  lemma {:induction false} CursorNeverGoesBack(lastSyncAt: int, listing: Provider, fetchOf: string -> (nat -> Outcome<ApiMessage>),
                                               parse: string -> Option<MimeMessage>, parseDate: string -> Option<int>, batchSize: int)
    requires ProviderStops(listing)
    ensures SyncSpec(lastSyncAt, listing, fetchOf, parse, parseDate, batchSize).Ok? ==>
              SyncSpec(lastSyncAt, listing, fetchOf, parse, parseDate, batchSize).value.cursor >= lastSyncAt
  {
    var refs := ListEmailsSpec(listing, Integration, "me", SyncQuery(lastSyncAt), batchSize).refs;
    ScanOutcome(refs, lastSyncAt, fetchOf, parse, parseDate);
  }

  /** Empty details neither appear in the output nor move the cursor. */
  lemma {:induction false} EmptyDetailsSkipped(refs: seq<MessageRef>, ref: MessageRef, lastSyncAt: int,
                                               fetchOf: string -> (nat -> Outcome<ApiMessage>),
                                               parse: string -> Option<MimeMessage>, parseDate: string -> Option<int>)
    requires ref.id.Some? && Fetched(ref.id.value, fetchOf, parse) == Empty
    ensures Scan(refs + [ref], lastSyncAt, fetchOf, parse, parseDate) == Scan(refs, lastSyncAt, fetchOf, parse, parseDate)
  {
    assert (refs + [ref])[..|refs + [ref]| - 1] == refs;
  }

  /** Every listing request of sync asks the "me" mailbox for messages after the
      cursor, batchSize at a time. */
  lemma {:induction false} SyncRequestsCarryCursor(lastSyncAt: int, listing: Provider, batchSize: int)
    requires ProviderStops(listing)
    ensures var requests := ListEmailsSpec(listing, Integration, "me", SyncQuery(lastSyncAt), batchSize).requests;
            |requests| >= 1 &&
            forall k :: 0 <= k < |requests| ==>
              requests[k].userId == "me" && requests[k].query == SyncQuery(lastSyncAt) && requests[k].maxResults == batchSize
  {
    ProviderStopsPagination(listing, Integration);
    PaginateOutcome(Responses(listing, Integration), "me", SyncQuery(lastSyncAt), batchSize);
  }
}
