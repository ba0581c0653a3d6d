/**
  The visitor-counter endpoint: an HTTP request is dispatched on its method;
  POST increments the one stored counter, GET reads it, anything else is
  refused with 405, and a failing store gives 500.
 */
module VisitorCounter {
  import opened Common

  // ---------------------------------------------------------------------------
  // Requests and responses
  // ---------------------------------------------------------------------------

  /** The nested request fields the handler reads; each level may be missing. */
  datatype Http = Http(httpMethod: Option<string>)
  datatype RequestContext = RequestContext(http: Option<Http>)
  datatype Event = Event(requestContext: Option<RequestContext>)

  /** The JSON body of a response, as content. */
  datatype Body = CountBody(visitorCount: int) | ErrorBody(error: string)

  datatype Response = Response(statusCode: int, body: Body)

  const UpdateFailed: string := "Could not update visitor count"
  const ReadFailed: string := "Could not retrieve visitor count"
  const NotAllowed: string := "Method Not Allowed"

  /** The request's method, "GET" when it is missing at any level. */
  function MethodOf(event: Event): string
  {
    match event.requestContext
    case None => "GET"
    case Some(ctx) =>
      match ctx.http
      case None => "GET"
      case Some(http) => http.httpMethod.GetOr("GET")
  }

  /** A request without a method, at whatever level it stops, is a GET. */
  lemma MethodDefaultsToGet(event: Event)
    ensures (event.requestContext.None? ||
             event.requestContext.value.http.None? ||
             event.requestContext.value.http.value.httpMethod.None?) ==> MethodOf(event) == "GET"
    ensures (event.requestContext.Some? && event.requestContext.value.http.Some? &&
             event.requestContext.value.http.value.httpMethod.Some?) ==>
            MethodOf(event) == event.requestContext.value.http.value.httpMethod.value
  {
  }

  // ---------------------------------------------------------------------------
  // Dispatch
  // ---------------------------------------------------------------------------

  /**
    The handler on the stored counter (`None` when the item or its
    `visitorCount` attribute is absent): the new counter and the response.
    `storeFails` says whether the store call raises; a failed update leaves
    the counter as it was.
   */
  function Dispatch(stored: Option<int>, httpMethod: string, storeFails: bool): (r: (Option<int>, Response))
    ensures r.1.statusCode == 200 <==> r.1.body.CountBody?
    ensures r.1.statusCode in {200, 405, 500}
    ensures r.0 != stored ==> httpMethod == "POST" && !storeFails
  {
    if httpMethod == "POST" then
      if storeFails then (stored, Response(500, ErrorBody(UpdateFailed)))
      else
        var newCount := stored.GetOr(0) + 1;
        (Some(newCount), Response(200, CountBody(newCount)))
    else if httpMethod == "GET" then
      if storeFails then (stored, Response(500, ErrorBody(ReadFailed)))
      else (stored, Response(200, CountBody(stored.GetOr(0))))
    else (stored, Response(405, ErrorBody(NotAllowed)))
  }

  /** A successful POST stores one more than before (a missing counter counts as 0) and answers with it. */
  lemma PostIncrements(stored: Option<int>)
    ensures var (after, resp) := Dispatch(stored, "POST", false);
      after == Some(stored.GetOr(0) + 1) && resp == Response(200, CountBody(after.value))
  {
  }

  /** A successful GET answers with the stored count, 0 when there is none, and changes nothing. */
  lemma GetReadsOnly(stored: Option<int>)
    ensures var (after, resp) := Dispatch(stored, "GET", false);
      after == stored && resp == Response(200, CountBody(stored.GetOr(0)))
  {
  }

  /** Any other method is refused with 405, whether or not the store works, and changes nothing. */
  lemma OtherMethodsRefused(stored: Option<int>, httpMethod: string, storeFails: bool)
    requires httpMethod != "POST" && httpMethod != "GET"
    ensures Dispatch(stored, httpMethod, storeFails) == (stored, Response(405, ErrorBody(NotAllowed)))
  {
  }

  /** A store failure answers 500 with the message of the operation tried and changes nothing. */
  lemma FailureChangesNothing(stored: Option<int>, httpMethod: string)
    requires httpMethod == "POST" || httpMethod == "GET"
    ensures var (after, resp) := Dispatch(stored, httpMethod, true);
      after == stored && resp.statusCode == 500 &&
      resp.body == ErrorBody(if httpMethod == "POST" then UpdateFailed else ReadFailed)
  {
  }

  /** A GET right after a successful POST reads the count the POST answered with. */
  lemma PostThenGet(stored: Option<int>)
    ensures var (afterPost, postResp) := Dispatch(stored, "POST", false);
      Dispatch(afterPost, "GET", false) == (afterPost, postResp)
  {
  }

  // ---------------------------------------------------------------------------
  // Sequences of requests
  // ---------------------------------------------------------------------------

  /** One request: its method and whether the store call fails. */
  datatype Request = Request(httpMethod: string, storeFails: bool)

  /** The counter after serving the requests in order. */
  function Run(stored: Option<int>, requests: seq<Request>): Option<int>
  {
    if requests == [] then stored
    else
      var last := requests[|requests| - 1];
      Dispatch(Run(stored, requests[..|requests| - 1]), last.httpMethod, last.storeFails).0
  }

  /** The number of requests that are successful POSTs. */
  function Increments(requests: seq<Request>): nat
  {
    if requests == [] then 0
    else
      var last := requests[|requests| - 1];
      Increments(requests[..|requests| - 1]) + (if last.httpMethod == "POST" && !last.storeFails then 1 else 0)
  }

  /**
    After any sequence of requests the count has grown by exactly the number of
    successful POSTs; it is stored at all once one of them has happened, and is
    `stored` itself when none has.
   */
  lemma {:induction false} RunCounts(stored: Option<int>, requests: seq<Request>)
    ensures Run(stored, requests).GetOr(0) == stored.GetOr(0) + Increments(requests)
    ensures Increments(requests) > 0 ==> Run(stored, requests).Some?
    ensures Increments(requests) == 0 ==> Run(stored, requests) == stored
  {
    if requests != [] {
      RunCounts(stored, requests[..|requests| - 1]);
    }
  }

  /** Serving more requests never lowers the count. */
  lemma {:induction false} RunMonotone(stored: Option<int>, requests: seq<Request>, n: nat)
    requires n <= |requests|
    ensures Run(stored, requests[..n]).GetOr(0) <= Run(stored, requests).GetOr(0)
  {
    RunCounts(stored, requests[..n]);
    RunCounts(stored, requests);
    IncrementsPrefix(requests, n);
  }

  lemma {:induction false} IncrementsPrefix(requests: seq<Request>, n: nat)
    requires n <= |requests|
    ensures Increments(requests[..n]) <= Increments(requests)
  {
    if n < |requests| {
      var init := requests[..|requests| - 1];
      assert requests[..n] == init[..n];
      IncrementsPrefix(init, n);
    } else {
      assert requests[..n] == requests;
    }
  }

  // ---------------------------------------------------------------------------
  // The table and the handler
  // ---------------------------------------------------------------------------

  /** The counter table's one item, updated in place by the handler. */
  class VisitorTable {
    /** The `visitorCount` attribute of the item with key 1; `None` when the item or the attribute is absent. */
    var visitorCount: Option<int>

    constructor(initial: Option<int>)
      ensures visitorCount == initial
    {
      visitorCount := initial;
    }

    /** `lambda_handler` on this table. */
    method Handle(event: Event, storeFails: bool) returns (response: Response)
      modifies this
      ensures (visitorCount, response) == Dispatch(old(visitorCount), MethodOf(event), storeFails)
    {
      var httpMethod := MethodOf(event);
      if httpMethod == "POST" {
        if storeFails {
          return Response(500, ErrorBody(UpdateFailed));
        }
        var newCount := visitorCount.GetOr(0) + 1;
        visitorCount := Some(newCount);
        response := Response(200, CountBody(newCount));
      } else if httpMethod == "GET" {
        if storeFails {
          return Response(500, ErrorBody(ReadFailed));
        }
        var count := visitorCount.GetOr(0);
        response := Response(200, CountBody(count));
      } else {
        response := Response(405, ErrorBody(NotAllowed));
      }
    }
  }
}
