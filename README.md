# Gmail ingestion core of personalized-ai, modelled in Dafny

This project models the part of the personalized-ai repository that pulls mail
from Gmail and the small record-building helpers around it:

- `robust_request`, the retry-with-backoff executor that wraps every Gmail API
  call. It retries statuses 429, 500 and 503 after sleeping 2^attempt seconds
  plus jitter. It re-raises 401, 403 and every other status at once. When the
  attempts run out it raises `TimeoutError`; the older connector copy raises a
  plain `Exception("Max retries exceeded")` instead.
- `list_emails`, which pages through the mailbox listing with continuation
  tokens, then truncates to `max_results`. Any exception gives `[]`.
- `get_email_details`, which turns one raw message into a record: four headers,
  the plain and HTML bodies gathered over the MIME parts, and the attachments.
  Any exception gives `{}`.
- `sync`, the incremental sync. It lists the messages `after:<cursor>`, keeps the
  non-empty records and moves the cursor to the latest Date seen.
- `MySQLClient`: building the INSERT / UPDATE / DELETE statements, the
  commit / rollback / close protocol of each statement, and the singleton
  construction.
- `create_event`, which builds a Google Calendar event body.

The loops of `robust_request`, `list_emails`, `get_email_details` and `sync`, and
the statement protocol of `MySQLClient`, are Dafny `method`s proved against a
specification function; lemmas then state the promised properties of that
function. `create_event`, `close` and the singleton construction are methods
whose `ensures` state those properties directly. The modules are:

| file | module | source |
|---|---|---|
| common.dfy | `Common` | Python built-ins the code relies on: slicing, `in` on strings, `str.join`, `2 ** n` |
| backoff.dfy | `Backoff` | `robust_request`, both copies |
| listing.dfy | `Listing` | `list_emails`, both copies |
| details.dfy | `Details` | `get_email_details`, both copies |
| sync.dfy | `Sync` | `sync` |
| mysql.dfy | `MySql` | `MySQLClient` |
| calendar.dfy | `Calendar` | `create_event` |

Calls the code makes into code outside this model are parameters:

- A request function is given by what its n-th invocation does
  (`nat -> Outcome<T>`).
- The mailbox listing is a finite script of such functions, one per page request.
- Each message id has its own fetch function.
- The base64 decoding plus MIME parse of a raw message is one partial function.
- `strptime(...).timestamp()` is a partial function to whole seconds.
- The MySQL server is given by how it answers `execute` and `commit`. Its answers
  may depend on everything done on the connection before.
- The calendar insert call is a function from the event body to the returned
  `htmlLink`, or to the exception its `execute()` raises.

Three behaviours of the code are easy to miss, and the model keeps them:

- `sync` persists nothing and does no cleaning or embedding.
- A message whose Date header is missing or malformed ends the whole `sync` run
  with an exception. It is not just dropped.
- So does a listed reference without an `id`.

## Model

| member | source | states |
|---|---|---|
| `Common.Take` | integrations/google/gmail/email_handler.py:51 | Python's `s[:n]` is a prefix of `s`. Its length is `min(n, len(s))` for `n >= 0` and `max(0, len(s) + n)` for negative `n`. |
| `Backoff.RobustRequest` | integrations/google/gmail/utils.py:13-41 | The loop's result, call count, sleeps and log are exactly those of the specification `RobustRequestSpec` (recursive `Attempts`), for both copies. |
| `Backoff.TransientPrefix` | integrations/google/gmail/utils.py:22-33 | After k transient failures the run is the rest of the run from attempt k, preceded by k calls, sleeps 2^0..2^(k-1) and k warnings. |
| `Backoff.ReturnsFirstSuccess` | integrations/google/gmail/utils.py:22-24 | If the first success is on attempt k < max_retries, its value is returned after exactly k+1 calls, with one sleep per earlier attempt. |
| `Backoff.ReraisesAuthenticationError` | integrations/google/gmail/utils.py:34-36 | A 401/403 on attempt k is re-raised as that HttpError. There are k+1 calls and no sleep or call after it. |
| `Backoff.ReraisesUnexpectedStatus` | integrations/google/gmail/utils.py:37-39 | Any status outside 429/500/503/401/403 is re-raised on its attempt without retry. |
| `Backoff.PropagatesForeignError` | integrations/google/gmail/utils.py:25 | An exception that is not an HttpError escapes on its first occurrence, with no sleep for it. |
| `Backoff.GivesUpWhenAttemptsRunOut` | integrations/google/gmail/utils.py:22-41 | If every permitted attempt is transient: max(0, max_retries) calls, one sleep 2^j after each failure (the last included), then the terminal error. With max_retries <= 0 there is no call at all. |
| `Backoff.RunShape` | integrations/google/gmail/utils.py:22-41 | For every request function: calls <= max(0, max_retries); sleeps are 2^0, 2^1, ..., each double the last; a terminal error follows exactly max(0, max_retries) calls; any other outcome takes one more call than sleeps; an escaping HttpError is never transient. |
| `Backoff.AttemptsShape` | integrations/google/gmail/utils.py:22-41 | The same shape for the run from any attempt a, with sleeps 2^(a+i). |
| `Backoff.CopiesDifferOnlyInTerminalError` | connectors/gmail/connector.py:73-96 | The connector copy makes the same calls, sleeps and log lines as the integrations copy. The results agree, except TimeoutError becomes the plain "Max retries exceeded" exception. |
| `Backoff.ReturnedValueComesFromACall` | integrations/google/gmail/utils.py:22-33 | A returned value is the value of a permitted attempt j < max_retries, every attempt before which failed transiently: with `ReturnsFirstSuccess`, the value returned is exactly that of the first non-transient attempt. |
| `Listing.ProviderStopsPagination` | integrations/google/gmail/email_handler.py:38 | A script whose last entry never returns a token makes the last response end the pagination. |
| `Listing.ListEmails` | integrations/google/gmail/email_handler.py:15-54 | The imperative loop (first request, one request per token while fewer than max_results are gathered, truncation, [] on exception) returns exactly the references and makes exactly the requests of `ListEmailsSpec`. |
| `Listing.RequestPage` | integrations/google/gmail/email_handler.py:40-45 | One page request yields what robust_request yields for that entry of the script. |
| `Listing.ResumesNext` | integrations/google/gmail/email_handler.py:38-48 | One round of the loop on a page keeps list_emails on course to return what `Paginate` returns. |
| `Listing.ContinueStops` | integrations/google/gmail/email_handler.py:38-47 | From any point of the loop: the responses it passes were pages, each followed by a token while fewer than max_results were gathered, and it stops within the script. |
| `Listing.ContinueOutcome` | integrations/google/gmail/email_handler.py:38-54 | From any point of the loop: if every response up to the stop was a page, the loop could not continue there and returns the first max_results gathered references; otherwise it returns []. |
| `Listing.ContinueRequests` | integrations/google/gmail/email_handler.py:39-45 | Each request of the loop passes the token of the response before it, with the same user, query and max_results. |
| `Listing.PaginateOutcome` | integrations/google/gmail/email_handler.py:26-54 | With n requests made: responses before the last were pages after which a token was present and fewer than max_results were gathered; the last is an exception or a page after which it stopped; the result is the first max_results of all n pages' "messages", in order, when there was no exception, and [] otherwise; request 0 has no token and request k the token of response k-1. |
| `Listing.ListedAtMostMaxResults` | integrations/google/gmail/email_handler.py:51 | For max_results >= 0, at most max_results references are returned. A negative max_results slices as `[:-n]` and can return more (see `Common.Take`). |
| `Listing.ListedIsPrefixOfPages` | integrations/google/gmail/email_handler.py:33-54 | A non-empty result comes from all-page responses and is a prefix of their "messages" lists in page order; pages without "messages" contribute nothing. |
| `Listing.ListingSwallowsRetryExhaustion` | connectors/gmail/connector.py:124-126 | If robust_request is exhausted on the first request, list_emails returns [] after that single request. |
| `Details.GetEmailDetails` | integrations/google/gmail/email_handler.py:56-125 | The imperative extraction (`+=` over `walk()`, the single-part rule, one append per attachment, `{}` on any exception) yields exactly `EmailDetailsSpec`. |
| `Details.ReadBodies` | integrations/google/gmail/email_handler.py:82-97 | The `+=` loop over `walk()` and the single-part branch give exactly `BodiesOf`, None where `get_content()` fails. |
| `Details.ReadAttachments` | integrations/google/gmail/email_handler.py:100-108 | The attachment loop gives exactly `AttachmentsOf`, None where `get_content()` fails. |
| `Details.SelectedFailureSticks` | integrations/google/gmail/email_handler.py:85-91 | Once reading a selected part's content fails, the whole body extraction fails. |
| `Details.AttachmentsFailureSticks` | integrations/google/gmail/email_handler.py:101-108 | Once reading an attachment's content fails, the attachment list fails. |
| `Details.SelectedConcat` | integrations/google/gmail/email_handler.py:85-91 | The body over parts a + b is the body of a followed by the body of b, and fails if either fails: the body keeps walk order. |
| `Details.NonBodyPartIgnored` | integrations/google/gmail/email_handler.py:88-91 | A part of another content type, or whose disposition contains "attachment", contributes nothing wherever it stands. |
| `Details.BodyPartAppended` | integrations/google/gmail/email_handler.py:88-91 | A part of the right type with a non-attachment disposition appends its text to the body. |
| `Details.MissingDispositionCountsAsBody` | integrations/google/gmail/email_handler.py:87-88 | A part without a Content-Disposition header stringifies to "None" and so counts as body for its type. |
| `Details.SinglePartSetsOneBody` | integrations/google/gmail/email_handler.py:92-97 | A single-part message sets only the body that matches its content type; any other type leaves both "". |
| `Details.AttachmentsPassThrough` | integrations/google/gmail/email_handler.py:100-108 | The attachment list succeeds exactly when every part's content is readable. It then has one entry per `iter_attachments()` part, in order, with that part's filename, content type and data. |
| `Details.DetailsOutcome` | connectors/gmail/connector.py:137-192 | A record is returned exactly when the fetch, the "raw" lookup, the parse, the body and attachment extraction and the "id" lookup succeed. Its fields are the message's id, threadId, labelIds and snippet; the header map has exactly the keys From, To, Subject, Date; then the bodies and attachments. Otherwise `{}`. |
| `Sync.DecimalRoundTrip` | integrations/google/gmail/sync.py:23 | `str` of an integer cursor reads back as that integer. |
| `Sync.QueryCarriesCursor` | integrations/google/gmail/sync.py:23 | The query is "after:" followed by the cursor, and the cursor reads back from it. |
| `Sync.Sync` | integrations/google/gmail/sync.py:11-42 | The imperative loop returns exactly `SyncSpec`: list with the cursor query and batch_size, then scan the references. Its listing requests are those of that listing. With nothing listed it returns ([], last_sync_at). |
| `Sync.ScanFailureSticks` | integrations/google/gmail/sync.py:32-39 | An exception raised at one reference is what sync raises. |
| `Sync.ScanSucceeds` | integrations/google/gmail/sync.py:31-42 | sync succeeds exactly when every reference has an id and every kept record's Date parses. |
| `Sync.ScanOutcome` | integrations/google/gmail/sync.py:31-42 | A successful sync returns the non-empty records in reference order. The cursor is >= the input and >= every kept timestamp, and equals the input or one of those timestamps: the maximum. |
| `Sync.CursorNeverGoesBack` | integrations/google/gmail/sync.py:37-38 | The returned cursor is >= the input cursor. |
| `Sync.EmptyDetailsSkipped` | integrations/google/gmail/sync.py:34-35 | A reference whose details are `{}` changes neither the output nor the cursor. |
| `Sync.SyncRequestsCarryCursor` | integrations/google/gmail/sync.py:23-27 | Every listing request sync makes asks mailbox "me" with query "after:<cursor>" and maxResults = batch_size. |
| `MySql.PlaceholderCount` | db/mysql/client.py:99 | The placeholder list holds exactly n `%s`. |
| `MySql.SetClauseCount` | db/mysql/client.py:129 | When no column name contains '%', the SET clause holds exactly one '%' per data key. |
| `MySql.InsertLinesUp` | db/mysql/client.py:98-102 | The INSERT text holds as many `%s` as there are bound values, and that is len(data), when no name holds a '%'. |
| `MySql.UpdateLinesUp` | db/mysql/client.py:129-132 | The bound values are the data values followed by the where params. When neither the table name nor any column name contains '%', and the WHERE clause holds len(params) of them, the text's '%' count equals the parameter count. |
| `MySql.DeleteLinesUp` | db/mysql/client.py:158-161 | The params are passed unchanged. When the table name contains no '%' and the WHERE clause holds len(params) of them, the text's '%' count equals len(params). |
| `MySql.QuotedRoundTrip` | db/mysql/client.py:98 | Names without backticks read back, in order, from their backticked, ", "-joined list. |
| `MySql.ColumnListRoundTrip` | db/mysql/client.py:98 | The INSERT column list reads back as data's keys, in order. |
| `MySql.SetClauseRoundTrip` | db/mysql/client.py:129 | The SET clause reads back as data's keys, in order. |
| `MySql.QueryDiscipline` | db/mysql/client.py:72-86 | execute_query opens a dictionary cursor, executes, and closes the cursor last, on every path. Rows are fetched and returned with no commit. Otherwise it commits and returns None. It rolls back exactly when it raises. |
| `MySql.WriteDiscipline` | db/mysql/client.py:103-115 | The try/except/finally that insert, update and delete share (also lines 133-145 and 159-171): a write succeeds exactly when the events are open cursor, execute, commit, close cursor. It returns lastrowid or rowcount from the server's reply. Any Error rolls back just before the cursor is closed. |
| `MySql.Connection.Execute` | db/mysql/client.py:74 | The reply is the server's answer given the history, and the execute is recorded. |
| `MySql.Connection.Commit` | db/mysql/client.py:79 | The commit's success is the server's answer given the history, and the commit is recorded. |
| `MySql.MySQLClient.ExecuteQuery` | db/mysql/client.py:61-86 | `params` defaults to None. The connection log grows by exactly the events of `QueryExchange`, and the result is its result. |
| `MySql.MySQLClient.Write` | db/mysql/client.py:103-115 | The shared try/except/finally of the writes: the log grows by exactly `WriteExchange`'s events, and the result is its result. |
| `MySql.MySQLClient.Insert` | db/mysql/client.py:88-115 | Runs the INSERT statement with lastrowid picked. |
| `MySql.MySQLClient.Update` | db/mysql/client.py:117-145 | Runs the UPDATE statement with rowcount picked. |
| `MySql.MySQLClient.Delete` | db/mysql/client.py:147-171 | Runs the DELETE statement with rowcount picked. |
| `MySql.MySQLClient.Close` | db/mysql/client.py:54-59 | A present connection ends closed with nothing else done on it. |
| `MySql.ClientClass.New` | db/mysql/client.py:24-31 | The instance is created on first construction and returned on every later one. |
| `MySql.ClientClass.ConstructAsWritten` | db/mysql/client.py:33-52 | `__init__` as written: with `_connection` unassigned it connects afresh on every construction, or raises when the server is unreachable and leaves the instance's connection as it was (none on a first construction). |
| `MySql.ClientClass.Construct` | db/mysql/client.py:33-52 | `__init__` as intended: a live connection is kept; otherwise it connects afresh, or raises and leaves the instance's connection as it was (none on a first construction). |
| `MySql.ReconnectsOnEveryConstruction` | db/mysql/client.py:29-38 | As written, two constructions give the same client but a different connection. |
| `MySql.ReusesLiveConnection` | db/mysql/client.py:29-38 | As intended, two constructions share the client and its connection. |
| `Calendar.CreateEvent` | integrations/google/calendar/service.py:3-32 | The body always has summary, start and end with the given date-times and time zones (both default "America/Los_Angeles"). "location" and "description" are present iff their argument is truthy; "attendees" iff the list is non-empty, in order. No other key is present. The result is "Event created: " followed by the returned htmlLink ("None" if absent); an exception from the insert request escapes unchanged. |

## Left out

- OAuth, token pickling and building the Gmail/Calendar service objects are not modelled. API calls are parameters of the model.
- Log messages are not modelled, except that `RobustRequest` records its warnings and errors as `LogLine`s.
- The jitter `random.uniform(0, 1)` and `time.sleep` are not modelled. A sleep is recorded by its integral part 2^attempt.
- Base64 decoding, `BytesParser`, `walk()`, `iter_attachments()` and `get_content()` are library code. They are given as the parse function and the parts it yields.
- Details.HeaderValue: looks up headers by exact name in a map. Case-insensitive lookup and repeated headers of `email.message` are not modelled.
- Details.TextOf: a body part whose content is bytes, not text, is treated as a failure. `get_content()` returns text for text/* parts, so this case does not arise from the library.
- Sync.Timestamp: `strptime(...).timestamp()` returns a float. The model uses whole seconds, so the cursor is an integer.
- Listing.ListEmails: requires the provider script to end pagination. Its last page request never returns a token. In the source, a server that kept returning tokens with too few messages would loop forever; a finite model cannot express that.
- Sync.Sync: requires the same of the listing it consumes, for the same reason.
- The request arguments of `messages().get` (`userId`, `id`, `format`) are not recorded. `fetchOf(id)` stands for that request.
- A listed reference is modelled by its `id` and `threadId` keys only.
- Sync.Sync: each message id has one fetch function, so two listed references with the same id get the same details. In the source every `get_email_details` call is a fresh request, and a repeated id could fare differently on its second fetch (a transient failure once, say).
- MySql.MySQLClient.ExecuteQuery: requires a connection object. After a failed first construction the attribute is missing and Python raises AttributeError, which is not modelled. The same holds for `Insert`, `Update`, `Delete` and `Write`.
- MySql.MySQLClient.Close: a missing connection is a no-op here. Python would raise AttributeError.
- Only `mysql.connector.Error` is modelled, from `execute` or `commit`. A failing `fetchall`, and non-Error exceptions (which skip the rollback), are not modelled.
- A cursor that cannot be opened on a closed connection raises `DatabaseError` before any event. The driver's exact exception class is not modelled.
- Connection parameters from the configuration (host, user, password, database, port, autocommit off) are not modelled.
- Calendar.CreateEvent: the insert request is a parameter. Its `calendarId="primary"` argument and the rest of the returned event are not modelled, and the link is taken to be text.
- Python integers are unbounded and none of this code relies on a fixed width, so no wrap-around is modelled.
- `store_emails` (JSON file output), `main`, the Streamlit pages, the Qdrant, Chroma and OpenAI clients, `db/mysql/utils.py`, configuration and logger modules are not part of this model.
- The drivers integrations/google/gmail/sync_gmail.py and data_integrations/google/gmail/main.py repeat the fetch-and-keep loop of `sync` with a fixed query. They are not part of this model.
- The caller pages/integrations.py calls `sync(user_id, ts)`, which does not match `sync(last_sync_at, batch_size)`. `sync` also calls `authenticate_gmail()` without its `user_id`. The model follows `sync`'s own signature.

## Findings

| source | as written | input that shows it | evidently intended | confidence | as-written member | corrected member |
|---|---|---|---|---|---|---|
| db/mysql/client.py:38 | `__init__` tests `self._connection`, the class attribute set to None at line 22 that nothing assigns. So the test is always true, and every `MySQLClient()` opens a new connection on the singleton and drops the live one. | Two successive `MySQLClient()` calls with the server reachable | Test the instance's own `self.connection`: reuse it while connected, reconnect otherwise | medium, not executed | `MySql.ReconnectsOnEveryConstruction` | `MySql.ReusesLiveConnection` |
