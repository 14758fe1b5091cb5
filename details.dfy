/** `get_email_details` (integrations/google/gmail/email_handler.py and its older copy
    in connectors/gmail/connector.py): fetch one message in raw form, parse it, and
    build the record of its four headers, its plain and HTML bodies and its
    attachments; any exception yields the empty record `{}`.

    Base64 decoding and MIME parsing are library code: `parse` stands for both and
    yields the parsed message (None when either raises). The parsed message gives
    its parts in `walk()` order and the parts `iter_attachments()` yields. */
module Details {
  import opened Common
  import opened Backoff

  /** The keys of the `format="raw"` message resource that the code reads. */
  datatype ApiMessage = ApiMessage(id: Option<string>, threadId: Option<string>, labelIds: Option<seq<string>>,
                                   snippet: Option<string>, raw: Option<string>)

  /** What `get_content()` returns. */
  datatype Payload = Text(text: string) | Binary(bytes: seq<bv8>)

  /** A MIME part: its content type, its `get_content_disposition()` (None when the
      header is absent), its filename and its content (None when `get_content()` raises). */
  datatype MimePart = MimePart(contentType: string, disposition: Option<string>, filename: Option<string>,
                               content: Option<Payload>)

  /** A parsed message: its headers, whether it is multipart, the message itself as a
      part, the parts of `walk()` and those of `iter_attachments()`. */
  datatype MimeMessage = MimeMessage(headers: map<string, string>, isMultipart: bool, root: MimePart,
                                     walk: seq<MimePart>, attachments: seq<MimePart>)

  datatype Attachment = Attachment(filename: Option<string>, contentType: string, data: Payload)

  /** The record get_email_details returns, one field per key. */
  datatype EmailRecord = EmailRecord(id: string, threadId: Option<string>, labels: Option<seq<string>>,
                                     snippet: Option<string>, headers: map<string, Option<string>>,
                                     body: string, htmlBody: string, attachments: seq<Attachment>)

  /** `{}` or a record. */
  datatype Details = Empty | Found(record: EmailRecord)

  const Plain: string := "text/plain"
  const Html: string := "text/html"
  const HeaderNames: set<string> := {"From", "To", "Subject", "Date"}

  /** `mime_msg[name]`: the header's value, None when it is absent. */
  function HeaderValue(m: MimeMessage, name: string): Option<string>
  {
    if name in m.headers then Some(m.headers[name]) else None
  }

  function HeaderMap(m: MimeMessage): map<string, Option<string>>
  {
    map name | name in HeaderNames :: HeaderValue(m, name)
  }

  /** `str(part.get_content_disposition())`: a missing disposition reads "None". */
  function DispositionText(d: Option<string>): string
  {
    match d
    case None => "None"
    case Some(s) => s
  }

  /** The part belongs to the body of the given content type. */
  predicate CountsAsBody(p: MimePart, contentType: string)
  {
    p.contentType == contentType && !Contains(DispositionText(p.disposition), "attachment")
  }

  /** `get_content()` of a text part; None when it raises (or, which the parser does not
      do for text parts, yields bytes that `+=` on a string would reject). */
  function TextOf(p: MimePart): Option<string>
  {
    match p.content
    case Some(Text(s)) => Some(s)
    case _ => None
  }

  /** The body of one content type accumulated over walked parts; None when the
      content of a selected part cannot be read. */
  function Selected(parts: seq<MimePart>, contentType: string): Option<string>
    decreases |parts|
  {
    if parts == [] then Some("")
    else
      var before := Selected(parts[..|parts| - 1], contentType);
      var p := parts[|parts| - 1];
      if before.None? || !CountsAsBody(p, contentType) then before
      else
        match TextOf(p)
        case None => None
        case Some(s) => Some(before.value + s)
  }

  datatype Bodies = Bodies(body: string, htmlBody: string)

  /** The plain and HTML bodies: over the walked parts for a multipart message, from the
      message itself otherwise (where the disposition is not consulted). */
  function BodiesOf(m: MimeMessage): Option<Bodies>
  {
    if m.isMultipart then
      match Selected(m.walk, Plain)
      case None => None
      case Some(b) =>
        match Selected(m.walk, Html)
        case None => None
        case Some(h) => Some(Bodies(b, h))
    else if m.root.contentType == Plain then
      match TextOf(m.root)
      case None => None
      case Some(s) => Some(Bodies(s, ""))
    else if m.root.contentType == Html then
      match TextOf(m.root)
      case None => None
      case Some(s) => Some(Bodies("", s))
    else Some(Bodies("", ""))
  }

  /** The attachment entries; None when the content of one cannot be read. */
  function AttachmentsOf(parts: seq<MimePart>): Option<seq<Attachment>>
    decreases |parts|
  {
    if parts == [] then Some([])
    else
      var before := AttachmentsOf(parts[..|parts| - 1]);
      var p := parts[|parts| - 1];
      if before.None? || p.content.None? then None
      else Some(before.value + [Attachment(p.filename, p.contentType, p.content.value)])
  }

  /** What get_email_details returns once robust_request has yielded `message`. */
  function DetailsOf(message: Result<ApiMessage>, parse: string -> Option<MimeMessage>): Details
  {
    match message
    case Raised(_) => Empty
    case Ok(msg) =>
      if msg.raw.None? then Empty
      else
        match parse(msg.raw.value)
        case None => Empty
        case Some(m) =>
          match BodiesOf(m)
          case None => Empty
          case Some(b) =>
            match AttachmentsOf(m.attachments)
            case None => Empty
            case Some(atts) =>
              match msg.id
              case None => Empty
              case Some(id) =>
                Found(EmailRecord(id, msg.threadId, msg.labelIds, msg.snippet, HeaderMap(m), b.body, b.htmlBody, atts))
  }

  /** What one call of get_email_details does, `fetch` being the request it hands to robust_request. */
  function EmailDetailsSpec(fetch: nat -> Outcome<ApiMessage>, parse: string -> Option<MimeMessage>, copy: Copy): Details
  {
    DetailsOf(RobustRequestSpec(fetch, DefaultMaxRetries, copy).result, parse)
  }

  /** get_email_details: headers, `+=` accumulation of the bodies over `walk()`, the
      single-part rule, one entry appended per attachment; `{}` on any exception. */
  method GetEmailDetails(fetch: nat -> Outcome<ApiMessage>, parse: string -> Option<MimeMessage>, copy: Copy)
    returns (d: Details)
    ensures d == EmailDetailsSpec(fetch, parse, copy)
  {
    var message, _, _, _ := RobustRequest(fetch, DefaultMaxRetries, copy);
    if message.Raised? || message.value.raw.None? {
      return Empty;
    }
    var msg := message.value;
    var parsed := parse(msg.raw.value);
    if parsed.None? {
      return Empty;
    }
    var m := parsed.value;
    var headers := HeaderMap(m);
    var bodies := ReadBodies(m);
    if bodies.None? {
      return Empty;
    }
    var attachments := ReadAttachments(m.attachments);
    if attachments.None? {
      return Empty;
    }
    if msg.id.None? {
      return Empty;
    }
    d := Found(EmailRecord(msg.id.value, msg.threadId, msg.labelIds, msg.snippet, headers,
                           bodies.value.body, bodies.value.htmlBody, attachments.value));
  }

  /** The body part of get_email_details: `+=` over the walked parts of a multipart
      message, the message's own content otherwise; None where get_content raises. */
  method ReadBodies(m: MimeMessage) returns (bodies: Option<Bodies>)
    ensures bodies == BodiesOf(m)
  {
    var body, htmlBody := "", "";
    if m.isMultipart {
      for i := 0 to |m.walk|
        invariant Selected(m.walk[..i], Plain) == Some(body)
        invariant Selected(m.walk[..i], Html) == Some(htmlBody)
      {
        var part := m.walk[i];
        var disposition := DispositionText(part.disposition);
        assert m.walk[..i + 1][..i] == m.walk[..i];
        if part.contentType == Plain && !Contains(disposition, "attachment") {
          var text := TextOf(part);
          if text.None? {
            SelectedFailureSticks(m.walk, i + 1, Plain);
            return None;
          }
          body := body + text.value;
        } else if part.contentType == Html && !Contains(disposition, "attachment") {
          var text := TextOf(part);
          if text.None? {
            SelectedFailureSticks(m.walk, i + 1, Html);
            return None;
          }
          htmlBody := htmlBody + text.value;
        }
      }
      assert m.walk[..|m.walk|] == m.walk;
    } else {
      var contentType := m.root.contentType;
      if contentType == Plain || contentType == Html {
        var text := TextOf(m.root);
        if text.None? {
          return None;
        }
        if contentType == Plain {
          body := text.value;
        } else {
          htmlBody := text.value;
        }
      }
    }
    bodies := Some(Bodies(body, htmlBody));
  }

  /** The attachment loop of get_email_details: one entry per part; None where
      get_content raises. */
  method ReadAttachments(parts: seq<MimePart>) returns (entries: Option<seq<Attachment>>)
    ensures entries == AttachmentsOf(parts)
  {
    var attachments: seq<Attachment> := [];
    for i := 0 to |parts|
      invariant AttachmentsOf(parts[..i]) == Some(attachments)
    {
      var part := parts[i];
      assert parts[..i + 1][..i] == parts[..i];
      if part.content.None? {
        AttachmentsFailureSticks(parts, i + 1);
        return None;
      }
      attachments := attachments + [Attachment(part.filename, part.contentType, part.content.value)];
    }
    assert parts[..|parts|] == parts;
    entries := Some(attachments);
  }

  lemma {:induction false} SelectedFailureSticks(parts: seq<MimePart>, k: nat, contentType: string)
    requires k <= |parts| && Selected(parts[..k], contentType).None?
    ensures Selected(parts, contentType).None?
    decreases |parts| - k
  {
    if k < |parts| {
      assert parts[..k + 1][..k] == parts[..k];
      SelectedFailureSticks(parts, k + 1, contentType);
    } else {
      assert parts[..k] == parts;
    }
  }

  lemma {:induction false} AttachmentsFailureSticks(parts: seq<MimePart>, k: nat)
    requires k <= |parts| && AttachmentsOf(parts[..k]).None?
    ensures AttachmentsOf(parts).None?
    decreases |parts| - k
  {
    if k < |parts| {
      assert parts[..k + 1][..k] == parts[..k];
      AttachmentsFailureSticks(parts, k + 1);
    } else {
      assert parts[..k] == parts;
    }
  }

  /** Joins two partial bodies: the concatenation, unless either failed. */
  function Append(x: Option<string>, y: Option<string>): Option<string>
  {
    if x.Some? && y.Some? then Some(x.value + y.value) else None
  }

  /** Walk order is kept: the body gathered over a + b is the body of a followed by the body of b. */
  lemma {:induction false} SelectedConcat(a: seq<MimePart>, b: seq<MimePart>, contentType: string)
    ensures Selected(a + b, contentType) == Append(Selected(a, contentType), Selected(b, contentType))
    decreases |b|
  {
    if b == [] {
      assert a + b == a;
      if Selected(a, contentType).Some? {
        assert Selected(a, contentType).value + "" == Selected(a, contentType).value;
      }
    } else {
      var b' := b[..|b| - 1];
      assert (a + b)[..|a + b| - 1] == a + b';
      var p := b[|b| - 1];
      assert (a + b)[|a + b| - 1] == p;
      SelectedConcat(a, b', contentType);
      assert Selected(a + b, contentType) ==
             (var before := Selected(a + b', contentType);
              if before.None? || !CountsAsBody(p, contentType) then before
              else match TextOf(p) case None => None case Some(s) => Some(before.value + s));
      assert Selected(b, contentType) ==
             (var before := Selected(b', contentType);
              if before.None? || !CountsAsBody(p, contentType) then before
              else match TextOf(p) case None => None case Some(s) => Some(before.value + s));
      if Selected(a, contentType).Some? && Selected(b', contentType).Some? && CountsAsBody(p, contentType) && TextOf(p).Some? {
        var x, y, z := Selected(a, contentType).value, Selected(b', contentType).value, TextOf(p).value;
        assert (x + y) + z == x + (y + z);
      }
    }
  }

  /** A walked part of another content type, or one whose disposition contains
      "attachment", contributes nothing to the body, wherever it stands. */
  lemma {:induction false} NonBodyPartIgnored(a: seq<MimePart>, p: MimePart, b: seq<MimePart>, contentType: string)
    requires !CountsAsBody(p, contentType)
    ensures Selected(a + [p] + b, contentType) == Selected(a + b, contentType)
  {
    SelectedConcat(a + [p], b, contentType);
    SelectedConcat(a, [p], contentType);
    SelectedConcat(a, b, contentType);
    assert [p][..0] == [];
  }

  /** A selected part adds its text to the end of the body. */
  lemma {:induction false} BodyPartAppended(a: seq<MimePart>, p: MimePart, contentType: string, text: string)
    requires CountsAsBody(p, contentType) && TextOf(p) == Some(text)
    ensures Selected(a + [p], contentType) == Append(Selected(a, contentType), Some(text))
  {
    assert (a + [p])[..|a + [p]| - 1] == a;
  }

  /** A part without a Content-Disposition header stringifies to "None", which does
      not contain "attachment": such a part belongs to the body of its type. */
  lemma {:induction false} MissingDispositionCountsAsBody(p: MimePart)
    requires p.disposition.None?
    ensures CountsAsBody(p, p.contentType)
  {
    ShorterNeverContains("None", "attachment");
  }

  /** A single-part message sets at most one body, chosen by its content type. */
  lemma {:induction false} SinglePartSetsOneBody(m: MimeMessage)
    requires !m.isMultipart && BodiesOf(m).Some?
    ensures var b := BodiesOf(m).value;
            && (m.root.contentType == Plain ==> b == Bodies(TextOf(m.root).value, ""))
            && (m.root.contentType == Html ==> b == Bodies("", TextOf(m.root).value))
            && (m.root.contentType != Plain && m.root.contentType != Html ==> b == Bodies("", ""))
            && (b.body == "" || b.htmlBody == "")
  {
  }

  /** One entry per `iter_attachments()` part, in order, with its filename, content
      type and data; the list fails exactly when some part's content cannot be read. */
  lemma {:induction false} AttachmentsPassThrough(parts: seq<MimePart>)
    ensures AttachmentsOf(parts).Some? <==> forall i :: 0 <= i < |parts| ==> parts[i].content.Some?
    ensures AttachmentsOf(parts).Some? ==>
              var atts := AttachmentsOf(parts).value;
              && |atts| == |parts|
              && forall i :: 0 <= i < |parts| ==>
                   atts[i] == Attachment(parts[i].filename, parts[i].contentType, parts[i].content.value)
    decreases |parts|
  {
    if parts != [] {
      var init := parts[..|parts| - 1];
      AttachmentsPassThrough(init);
      assert forall i :: 0 <= i < |init| ==> init[i] == parts[i];
    }
  }

  /** get_email_details returns a record exactly when the fetch, the "raw" lookup, the
      parse, the body and attachment extraction and the "id" lookup all succeed; the
      record then carries the message's fields and a header map with exactly the keys
      From, To, Subject and Date. */
  lemma {:induction false} DetailsOutcome(message: Result<ApiMessage>, parse: string -> Option<MimeMessage>)
    ensures DetailsOf(message, parse).Found? <==>
              && message.Ok? && message.value.raw.Some?
              && parse(message.value.raw.value).Some?
              && BodiesOf(parse(message.value.raw.value).value).Some?
              && AttachmentsOf(parse(message.value.raw.value).value.attachments).Some?
              && message.value.id.Some?
    ensures DetailsOf(message, parse).Found? ==>
              var msg := message.value;
              var m := parse(msg.raw.value).value;
              var r := DetailsOf(message, parse).record;
              && r.id == msg.id.value && r.threadId == msg.threadId
              && r.labels == msg.labelIds && r.snippet == msg.snippet
              && r.headers.Keys == HeaderNames
              && (forall name :: name in HeaderNames ==> r.headers[name] == HeaderValue(m, name))
              && r.body == BodiesOf(m).value.body && r.htmlBody == BodiesOf(m).value.htmlBody
              && r.attachments == AttachmentsOf(m.attachments).value
  {
  }
}
