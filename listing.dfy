/** `list_emails` (integrations/google/gmail/email_handler.py and its older copy in
    connectors/gmail/connector.py): page through the mailbox listing with
    continuation tokens until no token is left or `max_results` references are
    gathered, then truncate; any exception yields the empty list.

    The mail provider is given as a script: the i-th page request is served by
    `pages[i]`, the behaviour of the request function that robust_request wraps for
    that request. */
module Listing {
  import opened Common
  import opened Backoff

  /** One entry of a response's "messages" list. */
  datatype MessageRef = MessageRef(id: Option<string>, threadId: Option<string>)

  /** A listing response: its "messages" and "nextPageToken" keys, each possibly absent. */
  datatype Page = Page(messages: Option<seq<MessageRef>>, nextPageToken: Option<string>)

  /** The arguments of one `messages().list(...)` request. */
  datatype ListRequest = ListRequest(userId: string, query: string, pageToken: Option<string>, maxResults: int)

  /** What list_emails returns, with the page requests it made. */
  datatype Listed = Listed(refs: seq<MessageRef>, requests: seq<ListRequest>)

  type Provider = seq<nat -> Outcome<Page>>

  /** A response without "messages" contributes nothing. */
  function MessagesOf(p: Page): seq<MessageRef>
  {
    match p.messages
    case Some(m) => m
    case None => []
  }

  /** What robust_request yields for the i-th page request. */
  function PageResult(pages: Provider, i: nat, copy: Copy): Result<Page>
    requires i < |pages|
  {
    RobustRequestSpec(pages[i], DefaultMaxRetries, copy).result
  }

  /** What robust_request yields for each of the provider's page requests. */
  function Responses(pages: Provider, copy: Copy): seq<Result<Page>>
  {
    seq(|pages|, i requires 0 <= i < |pages| => PageResult(pages, i, copy))
  }

  /** Whatever this request function returns carries no continuation token. */
  ghost predicate EndsListing(request: nat -> Outcome<Page>)
  {
    forall a: nat :: request(a).Returns? ==> request(a).value.nextPageToken.None?
  }

  /** The provider's script ends the pagination: its last entry never hands out a
      continuation token. */
  ghost predicate ProviderStops(pages: Provider)
  {
    |pages| > 0 && EndsListing(pages[|pages| - 1])
  }

  /** The last response is an exception or carries no continuation token. */
  predicate EndsPagination(rs: seq<Result<Page>>)
  {
    |rs| > 0 && (rs[|rs| - 1].Ok? ==> rs[|rs| - 1].value.nextPageToken.None?)
  }

  lemma ProviderStopsPagination(pages: Provider, copy: Copy)
    requires ProviderStops(pages)
    ensures EndsPagination(Responses(pages, copy))
  {
    var last := |pages| - 1;
    if PageResult(pages, last, copy).Ok? {
      ReturnedValueComesFromACall(pages[last], DefaultMaxRetries, copy, 0);
    }
  }

  /** The pagination loop over the responses rs, entered with i requests made,
      `gathered` collected so far and `prev` the last response. */
  function Continue(rs: seq<Result<Page>>, userId: string, query: string, maxResults: int,
                    i: nat, gathered: seq<MessageRef>, prev: Page): Listed
    requires EndsPagination(rs)
    requires 0 < i <= |rs|
    requires i == |rs| ==> prev.nextPageToken.None?
    decreases |rs| - i
  {
    if prev.nextPageToken.None? || |gathered| >= maxResults then Listed(Take(gathered, maxResults), [])
    else
      var request := ListRequest(userId, query, prev.nextPageToken, maxResults);
      match rs[i]
      case Raised(_) => Listed([], [request])
      case Ok(page) =>
        var rest := Continue(rs, userId, query, maxResults, i + 1, gathered + MessagesOf(page), page);
        Listed(rest.refs, [request] + rest.requests)
  }

  /** What list_emails does when its page requests yield rs. */
  function Paginate(rs: seq<Result<Page>>, userId: string, query: string, maxResults: int): Listed
    requires EndsPagination(rs)
  {
    var first := ListRequest(userId, query, None, maxResults);
    match rs[0]
    case Raised(_) => Listed([], [first])
    case Ok(page) =>
      var rest := Continue(rs, userId, query, maxResults, 1, MessagesOf(page), page);
      Listed(rest.refs, [first] + rest.requests)
  }

  /** What one call of list_emails does against the provider. */
  ghost function ListEmailsSpec(pages: Provider, copy: Copy, userId: string, query: string, maxResults: int): Listed
    requires ProviderStops(pages)
  {
    ProviderStopsPagination(pages, copy);
    Paginate(Responses(pages, copy), userId, query, maxResults)
  }

  /** One page request of list_emails, made through robust_request. */
  method RequestPage(pages: Provider, copy: Copy, i: nat) returns (response: Result<Page>)
    requires i < |pages|
    ensures response == Responses(pages, copy)[i]
  {
    var calls, sleeps, log;
    response, calls, sleeps, log := RobustRequest(pages[i], DefaultMaxRetries, copy);
  }

  /** list_emails' loop invariant: after the requests made so far, the rest of the
      loop from response i on completes Paginate. */
  predicate Resumes(rs: seq<Result<Page>>, userId: string, query: string, maxResults: int,
                    i: nat, gathered: seq<MessageRef>, prev: Page, requests: seq<ListRequest>)
  {
    && EndsPagination(rs)
    && 0 < i <= |rs|
    && (i == |rs| ==> prev.nextPageToken.None?)
    && var rest := Continue(rs, userId, query, maxResults, i, gathered, prev);
       Paginate(rs, userId, query, maxResults) == Listed(rest.refs, requests + rest.requests)
  }

  /** The first response, when a page, starts the loop. */
  lemma ResumesFirst(rs: seq<Result<Page>>, userId: string, query: string, maxResults: int)
    requires EndsPagination(rs) && rs[0].Ok?
    ensures Resumes(rs, userId, query, maxResults, 1, MessagesOf(rs[0].value), rs[0].value,
                    [ListRequest(userId, query, None, maxResults)])
  {
  }

  /** One more round of the loop, when the next response is a page. */
  lemma ResumesNext(rs: seq<Result<Page>>, userId: string, query: string, maxResults: int,
                    i: nat, gathered: seq<MessageRef>, prev: Page, requests: seq<ListRequest>)
    requires Resumes(rs, userId, query, maxResults, i, gathered, prev, requests)
    requires prev.nextPageToken.Some? && |gathered| < maxResults && rs[i].Ok?
    ensures Resumes(rs, userId, query, maxResults, i + 1, gathered + MessagesOf(rs[i].value), rs[i].value,
                    requests + [ListRequest(userId, query, prev.nextPageToken, maxResults)])
  {
    var request := ListRequest(userId, query, prev.nextPageToken, maxResults);
    var rest := Continue(rs, userId, query, maxResults, i + 1, gathered + MessagesOf(rs[i].value), rs[i].value);
    assert Continue(rs, userId, query, maxResults, i, gathered, prev) == Listed(rest.refs, [request] + rest.requests);
    assert requests + ([request] + rest.requests) == (requests + [request]) + rest.requests;
  }

  /** Where the loop ends, the result is what Paginate returns. */
  lemma ResumesDone(rs: seq<Result<Page>>, userId: string, query: string, maxResults: int,
                    i: nat, gathered: seq<MessageRef>, prev: Page, requests: seq<ListRequest>)
    requires Resumes(rs, userId, query, maxResults, i, gathered, prev, requests)
    requires prev.nextPageToken.None? || |gathered| >= maxResults
    ensures Paginate(rs, userId, query, maxResults) == Listed(Take(gathered, maxResults), requests)
  {
  }

  /** A response that raises ends the loop with the empty result. */
  lemma ResumesRaised(rs: seq<Result<Page>>, userId: string, query: string, maxResults: int,
                      i: nat, gathered: seq<MessageRef>, prev: Page, requests: seq<ListRequest>)
    requires Resumes(rs, userId, query, maxResults, i, gathered, prev, requests)
    requires prev.nextPageToken.Some? && |gathered| < maxResults && rs[i].Raised?
    ensures Paginate(rs, userId, query, maxResults)
              == Listed([], requests + [ListRequest(userId, query, prev.nextPageToken, maxResults)])
  {
  }

  /** list_emails: the first request, then one request per continuation token while
      fewer than maxResults references are gathered, then truncation; an exception
      from any request makes the result empty. */
  method ListEmails(pages: Provider, copy: Copy, userId: string := "me", query: string := "", maxResults: int := 100)
    returns (refs: seq<MessageRef>, requests: seq<ListRequest>)
    requires ProviderStops(pages)
    ensures Listed(refs, requests) == ListEmailsSpec(pages, copy, userId, query, maxResults)
  {
    ghost var rs := Responses(pages, copy);
    ProviderStopsPagination(pages, copy);
    requests := [ListRequest(userId, query, None, maxResults)];
    var response := RequestPage(pages, copy, 0);
    if response.Raised? {
      return [], requests;
    }
    var messages := MessagesOf(response.value);
    var page := response.value;
    var i := 1;
    ResumesFirst(rs, userId, query, maxResults);
    while page.nextPageToken.Some? && |messages| < maxResults
      invariant Resumes(rs, userId, query, maxResults, i, messages, page, requests)
      decreases |rs| - i
    {
      var request := ListRequest(userId, query, page.nextPageToken, maxResults);
      var next := RequestPage(pages, copy, i);
      if next.Raised? {
        ResumesRaised(rs, userId, query, maxResults, i, messages, page, requests);
        return [], requests + [request];
      }
      ResumesNext(rs, userId, query, maxResults, i, messages, page, requests);
      requests := requests + [request];
      messages := messages + MessagesOf(next.value);
      page := next.value;
      i := i + 1;
    }
    ResumesDone(rs, userId, query, maxResults, i, messages, page, requests);
    refs := Take(messages, maxResults);
  }

  /** The first n responses are all pages. */
  predicate AllOk(rs: seq<Result<Page>>, n: nat)
    requires n <= |rs|
  {
    forall j :: 0 <= j < n ==> rs[j].Ok?
  }

  /** The in-order concatenation of the "messages" lists of the first n responses. */
  function Gathered(rs: seq<Result<Page>>, n: nat): seq<MessageRef>
    requires n <= |rs| && AllOk(rs, n)
    decreases n
  {
    if n == 0 then [] else Gathered(rs, n - 1) + MessagesOf(rs[n - 1].value)
  }

  /** A further page was requested after response j: it carried a token and fewer
      than maxResults references had been gathered. */
  predicate Continued(rs: seq<Result<Page>>, maxResults: int, j: nat)
    requires j < |rs| && AllOk(rs, j + 1)
  {
    rs[j].value.nextPageToken.Some? && |Gathered(rs, j + 1)| < maxResults
  }

  /** Where the pagination loop stops, stated against the responses: every response it
      passes was a page after which it continued. */
  lemma {:induction false} ContinueStops(rs: seq<Result<Page>>, userId: string, query: string, maxResults: int,
                                         i: nat, gathered: seq<MessageRef>, prev: Page)
    requires EndsPagination(rs)
    requires 0 < i <= |rs|
    requires i == |rs| ==> prev.nextPageToken.None?
    requires AllOk(rs, i) && gathered == Gathered(rs, i) && prev == rs[i - 1].value
    ensures var n := i + |Continue(rs, userId, query, maxResults, i, gathered, prev).requests|;
            && n <= |rs|
            && AllOk(rs, n - 1)
            && (forall j :: i - 1 <= j < n - 1 ==> Continued(rs, maxResults, j))
    decreases |rs| - i
  {
    if prev.nextPageToken.None? || |gathered| >= maxResults {
    } else {
      assert Continued(rs, maxResults, i - 1);
      match rs[i]
      case Raised(_) =>
      case Ok(page) =>
        assert AllOk(rs, i + 1);
        assert Gathered(rs, i + 1) == gathered + MessagesOf(page);
        ContinueStops(rs, userId, query, maxResults, i + 1, gathered + MessagesOf(page), page);
    }
  }

  /** What the pagination loop returns, stated against the responses: when every response
      up to where it stopped was a page, pagination could not continue there and the
      result is their truncated concatenation; otherwise the result is empty. */
  lemma {:induction false} ContinueOutcome(rs: seq<Result<Page>>, userId: string, query: string, maxResults: int,
                                           i: nat, gathered: seq<MessageRef>, prev: Page)
    requires EndsPagination(rs)
    requires 0 < i <= |rs|
    requires i == |rs| ==> prev.nextPageToken.None?
    requires AllOk(rs, i) && gathered == Gathered(rs, i) && prev == rs[i - 1].value
    ensures var r := Continue(rs, userId, query, maxResults, i, gathered, prev);
            var n := i + |r.requests|;
            n <= |rs| && AllOk(rs, n) ==> !Continued(rs, maxResults, n - 1) && r.refs == Take(Gathered(rs, n), maxResults)
    ensures var r := Continue(rs, userId, query, maxResults, i, gathered, prev);
            var n := i + |r.requests|;
            !(n <= |rs| && AllOk(rs, n)) ==> r.refs == []
    decreases |rs| - i
  {
    var r := Continue(rs, userId, query, maxResults, i, gathered, prev);
    if prev.nextPageToken.None? || |gathered| >= maxResults {
      assert r == Listed(Take(Gathered(rs, i), maxResults), []);
    } else {
      var request := ListRequest(userId, query, prev.nextPageToken, maxResults);
      match rs[i]
      case Raised(_) =>
        assert r == Listed([], [request]);
        assert i + |r.requests| == i + 1 <= |rs|;
        assert !AllOk(rs, i + 1);
      case Ok(page) =>
        assert AllOk(rs, i + 1);
        assert Gathered(rs, i + 1) == gathered + MessagesOf(page);
        ContinueOutcome(rs, userId, query, maxResults, i + 1, gathered + MessagesOf(page), page);
        var rest := Continue(rs, userId, query, maxResults, i + 1, gathered + MessagesOf(page), page);
        assert r == Listed(rest.refs, [request] + rest.requests);
        assert i + |r.requests| == (i + 1) + |rest.requests|;
    }
  }

  /** Each request of the pagination loop passes the token of the response before it. */
  lemma {:induction false} ContinueRequests(rs: seq<Result<Page>>, userId: string, query: string, maxResults: int,
                                            i: nat, gathered: seq<MessageRef>, prev: Page)
    requires EndsPagination(rs)
    requires 0 < i <= |rs|
    requires i == |rs| ==> prev.nextPageToken.None?
    requires AllOk(rs, i) && prev == rs[i - 1].value
    ensures var r := Continue(rs, userId, query, maxResults, i, gathered, prev);
            && i + |r.requests| <= |rs| + 1
            && AllOk(rs, i + |r.requests| - 1)
            && forall k :: 0 <= k < |r.requests| ==>
                 r.requests[k] == ListRequest(userId, query, rs[i + k - 1].value.nextPageToken, maxResults)
    decreases |rs| - i
  {
    if prev.nextPageToken.None? || |gathered| >= maxResults {
    } else {
      match rs[i]
      case Raised(_) =>
      case Ok(page) =>
        assert AllOk(rs, i + 1);
        ContinueRequests(rs, userId, query, maxResults, i + 1, gathered + MessagesOf(page), page);
        var rest := Continue(rs, userId, query, maxResults, i + 1, gathered + MessagesOf(page), page);
        var r := Continue(rs, userId, query, maxResults, i, gathered, prev);
        forall k | 0 < k < |r.requests|
          ensures r.requests[k] == ListRequest(userId, query, rs[i + k - 1].value.nextPageToken, maxResults)
        {
          assert r.requests[k] == rest.requests[k - 1];
        }
    }
  }

  /** What list_emails returns and requests, stated against the responses: n requests
      are made; response j < n - 1 was a page after which pagination continued; the
      last one is an exception, or a page after which it stopped; the result is the
      truncated concatenation of all n pages when there was no exception, and empty
      otherwise; request 0 carries no token, request j the token of response j - 1. */
  lemma {:induction false} PaginateOutcome(rs: seq<Result<Page>>, userId: string, query: string, maxResults: int)
    requires EndsPagination(rs)
    ensures var l := Paginate(rs, userId, query, maxResults);
            var n := |l.requests|;
            && 1 <= n <= |rs|
            && AllOk(rs, n - 1)
            && (forall j :: 0 <= j < n - 1 ==> Continued(rs, maxResults, j))
            && (AllOk(rs, n) ==> !Continued(rs, maxResults, n - 1))
            && l.refs == (if AllOk(rs, n) then Take(Gathered(rs, n), maxResults) else [])
            && l.requests[0] == ListRequest(userId, query, None, maxResults)
            && (forall k :: 0 < k < n ==> l.requests[k] == ListRequest(userId, query, rs[k - 1].value.nextPageToken, maxResults))
  {
    match rs[0]
    case Raised(_) =>
    case Ok(page) =>
      assert AllOk(rs, 1);
      assert Gathered(rs, 1) == MessagesOf(page);
      ContinueStops(rs, userId, query, maxResults, 1, MessagesOf(page), page);
      ContinueOutcome(rs, userId, query, maxResults, 1, MessagesOf(page), page);
      ContinueRequests(rs, userId, query, maxResults, 1, MessagesOf(page), page);
  }

  /** list_emails never returns more than maxResults references. */
  lemma {:induction false} ListedAtMostMaxResults(rs: seq<Result<Page>>, userId: string, query: string, maxResults: int)
    requires EndsPagination(rs)
    requires maxResults >= 0
    ensures |Paginate(rs, userId, query, maxResults).refs| <= maxResults
  {
    PaginateOutcome(rs, userId, query, maxResults);
  }

  /** A non-empty result is a prefix of the in-order concatenation of the responses'
      "messages" lists, every response received having been a page. */
  lemma {:induction false} ListedIsPrefixOfPages(rs: seq<Result<Page>>, userId: string, query: string, maxResults: int)
    requires EndsPagination(rs)
    ensures var l := Paginate(rs, userId, query, maxResults);
            var n := |l.requests|;
            && n <= |rs|
            && (l.refs != [] ==> AllOk(rs, n) && l.refs <= Gathered(rs, n))
  {
    PaginateOutcome(rs, userId, query, maxResults);
  }

  /** The connector's list_emails swallows the exhaustion of robust_request on its first
      request: the result is empty and no further page is requested. */
  lemma {:induction false} ListingSwallowsRetryExhaustion(pages: Provider, copy: Copy, userId: string, query: string, maxResults: int)
    requires ProviderStops(pages)
    requires forall j :: 0 <= j < DefaultMaxRetries ==> IsTransient(pages[0](j))
    ensures var l := ListEmailsSpec(pages, copy, userId, query, maxResults);
            l.refs == [] && |l.requests| == 1
  {
    GivesUpWhenAttemptsRunOut(pages[0], DefaultMaxRetries, copy);
    assert Responses(pages, copy)[0] == Raised(Terminal(copy));
  }
}
