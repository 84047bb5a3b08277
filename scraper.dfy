/**
 * The Frontier scraper (scraper.py). One search request per route; the
 * page's listings are turned into flight records, skipping any listing that
 * lacks one of its four fields; the records of all routes are concatenated
 * in route order and stamped with one search time.
 *
 * The network and the HTML parser are not modelled: the reply to the k-th
 * request is given as the k-th element of a sequence of `Response`s, and a
 * parsed page is the sequence of its listings, each field already extracted
 * as the element's text (`None` when the element is absent).
 */
module Scraper {
  import opened Wrappers
  import opened Text
  import opened Prices
  import opened Airports

  /** One `.flightItem`: the text of each of its four sub-elements, if present. */
  datatype Listing = Listing(
    price: Option<string>,
    departure: Option<string>,
    arrival: Option<string>,
    flightNumber: Option<string>)

  /**
   * What one search brings back: either a failure anywhere between sending
   * the request and parsing the page (connection error, error status), or
   * the page's listings in document order.
   */
  datatype Response = Failed | Page(listings: seq<Listing>)

  /** The dictionary built for one kept listing. */
  datatype FlightRecord = FlightRecord(
    origin: Code,
    destination: Code,
    departureTime: string,
    arrivalTime: string,
    price: Price,
    flightNumber: string)

  /** One row of the result table: a record and the `search_time` column. */
  datatype Row = Row(flight: FlightRecord, searchTime: string)

  /** The query string of a search, field by field. */
  datatype Query = Query(
    from: string, to: string, depart: string, return_: string,
    adult: string, child: string, senior: string, infant: string,
    promo: string, currency: string)

  /** A GET request as handed to the HTTP session. */
  datatype Request = Request(url: string, query: Query, headers: map<string, string>)

  const BASE_URL: string := "https://booking.flyfrontier.com"
  const SEARCH_PATH: string := "/Flight/Search"

  const HEADERS: map<string, string> := map[
    "User-Agent" := "Mozilla/5.0 (Windows NT 10.0; Win64; x64) AppleWebKit/537.36 (KHTML, like Gecko) Chrome/91.0.4472.124 Safari/537.36",
    "Accept" := "text/html,application/xhtml+xml,application/xml;q=0.9,image/webp,*/*;q=0.8",
    "Accept-Language" := "en-US,en;q=0.5",
    "DNT" := "1",
    "Connection" := "keep-alive",
    "Upgrade-Insecure-Requests" := "1"]

  /** The `params` dictionary of a query. */
  function Params(q: Query): map<string, string>
  {
    map[
      "from" := q.from,
      "to" := q.to,
      "depart" := q.depart,
      "return" := q.return_,
      "adult" := q.adult,
      "child" := q.child,
      "senior" := q.senior,
      "infant" := q.infant,
      "promo" := q.promo,
      "currency" := q.currency]
  }

  /** The fixed part of every search: one way, one adult, no promotion code, prices in dollars. */
  const ONE_WAY_ADULT: Query := Query("", "", "", "", "1", "0", "0", "0", "", "USD")

  /** The query of a search for one route and day. */
  function SearchParams(origin: Code, destination: Code, date: string): Query
  {
    ONE_WAY_ADULT.(from := origin, to := destination, depart := date)
  }

  /**
   * The query names the route and the day; everything else is fixed: no
   * return date, one adult, no children, seniors or infants, no promotion
   * code, prices in dollars.
   */
  lemma SearchParamsFields(origin: Code, destination: Code, date: string)
    ensures var p := Params(SearchParams(origin, destination, date));
      && p.Keys == {"from", "to", "depart", "return", "adult", "child", "senior", "infant", "promo", "currency"}
      && p["from"] == origin && p["to"] == destination && p["depart"] == date
      && p["return"] == "" && p["promo"] == ""
      && p["adult"] == "1" && p["child"] == "0" && p["senior"] == "0" && p["infant"] == "0"
      && p["currency"] == "USD"
  {
  }

  /** A listing is used only when all four of its elements were found. */
  predicate Complete(l: Listing) {
    l.price.Some? && l.departure.Some? && l.arrival.Some? && l.flightNumber.Some?
  }

  /** The record of a complete listing found on the search for `origin` to `destination`. */
  function Record(origin: Code, destination: Code, l: Listing): FlightRecord
    requires Complete(l)
  {
    FlightRecord(origin, destination, Strip(l.departure.value), Strip(l.arrival.value),
                 FormatPrice(l.price.value), Strip(l.flightNumber.value))
  }

  /** The complete listings of a page, in page order. */
  function Kept(ls: seq<Listing>): (ks: seq<Listing>)
    ensures forall k :: 0 <= k < |ks| ==> Complete(ks[k])
  {
    if ls == [] then []
    else
      var last := ls[|ls| - 1];
      Kept(ls[..|ls| - 1]) + (if Complete(last) then [last] else [])
  }

  /** The records of complete listings, one for one. */
  function Records(origin: Code, destination: Code, ks: seq<Listing>): (rs: seq<FlightRecord>)
    requires forall k :: 0 <= k < |ks| ==> Complete(ks[k])
  {
    seq(|ks|, k requires 0 <= k < |ks| => Record(origin, destination, ks[k]))
  }

  /** The records of a page: the complete listings, in page order, as records. */
  function FlightData(origin: Code, destination: Code, ls: seq<Listing>): seq<FlightRecord>
  {
    Records(origin, destination, Kept(ls))
  }

  /** What one route contributes: nothing at all when the search failed. */
  function Fetch(origin: Code, destination: Code, resp: Response): seq<FlightRecord>
  {
    match resp
    case Failed => []
    case Page(ls) => FlightData(origin, destination, ls)
  }

  /** What each route contributes, the k-th route answered by the k-th response. */
  function RouteResults(routes: seq<Route>, responses: seq<Response>): (xs: seq<seq<FlightRecord>>)
    requires |responses| == |routes|
    ensures |xs| == |routes|
  {
    seq(|routes|, k requires 0 <= k < |routes| => Fetch(routes[k].0, routes[k].1, responses[k]))
  }

  /** The lists one after the other. */
  function Concat(xs: seq<seq<FlightRecord>>): seq<FlightRecord>
  {
    if xs == [] then [] else Concat(xs[..|xs| - 1]) + xs[|xs| - 1]
  }

  /** The records of all routes, in route order. */
  function Collected(routes: seq<Route>, responses: seq<Response>): seq<FlightRecord>
    requires |responses| == |routes|
  {
    Concat(RouteResults(routes, responses))
  }

  /** The table: every record with the same search time. */
  function Stamp(fs: seq<FlightRecord>, searchTime: string): (rows: seq<Row>)
    ensures |rows| == |fs|
    ensures forall k :: 0 <= k < |rows| ==> rows[k].flight == fs[k] && rows[k].searchTime == searchTime
  {
    seq(|fs|, k requires 0 <= k < |fs| => Row(fs[k], searchTime))
  }

  // ---------------------------------------------------------------------
  // Properties of the listing filter
  // ---------------------------------------------------------------------

  /** Filtering a page is filtering its parts one after the other. */
  lemma {:induction false} KeptAppend(a: seq<Listing>, b: seq<Listing>)
    ensures Kept(a + b) == Kept(a) + Kept(b)
    decreases |b|
  {
    if b == [] {
      assert a + b == a;
    } else {
      var n := |b| - 1;
      var last := b[n];
      var tail := if Complete(last) then [last] else [];
      assert (a + b)[..|a + b| - 1] == a + b[..n];
      assert (a + b)[|a + b| - 1] == last;
      KeptAppend(a, b[..n]);
      calc {
        Kept(a + b);
        Kept(a + b[..n]) + tail;
        (Kept(a) + Kept(b[..n])) + tail;
        Kept(a) + (Kept(b[..n]) + tail);
        Kept(a) + Kept(b);
      }
    }
  }

  /** Converting listings to records commutes with concatenation. */
  lemma RecordsAppend(origin: Code, destination: Code, a: seq<Listing>, b: seq<Listing>)
    requires forall k :: 0 <= k < |a| ==> Complete(a[k])
    requires forall k :: 0 <= k < |b| ==> Complete(b[k])
    ensures forall k :: 0 <= k < |a + b| ==> Complete((a + b)[k])
    ensures Records(origin, destination, a + b) == Records(origin, destination, a) + Records(origin, destination, b)
  {
    assert forall k :: 0 <= k < |a + b| ==> (a + b)[k] == if k < |a| then a[k] else b[k - |a|];
  }

  /** The records of two pieces of a page are the records of the first followed by those of the second. */
  lemma FlightDataAppend(origin: Code, destination: Code, a: seq<Listing>, b: seq<Listing>)
    ensures FlightData(origin, destination, a + b)
         == FlightData(origin, destination, a) + FlightData(origin, destination, b)
  {
    KeptAppend(a, b);
    RecordsAppend(origin, destination, Kept(a), Kept(b));
  }

  /** A single listing gives its record when complete and nothing otherwise. */
  lemma FlightDataSingle(origin: Code, destination: Code, l: Listing)
    ensures Complete(l) ==> FlightData(origin, destination, [l]) == [Record(origin, destination, l)]
    ensures !Complete(l) ==> FlightData(origin, destination, [l]) == []
  {
    assert [l][..0] == [];
    assert Kept([l]) == if Complete(l) then [l] else [];
  }

  /** An incomplete listing is skipped without disturbing the records around it. */
  lemma FlightDataSkip(origin: Code, destination: Code, a: seq<Listing>, l: Listing, b: seq<Listing>)
    requires !Complete(l)
    ensures FlightData(origin, destination, a + [l] + b) == FlightData(origin, destination, a + b)
  {
    FlightDataAppend(origin, destination, a + [l], b);
    FlightDataAppend(origin, destination, a, [l]);
    FlightDataSingle(origin, destination, l);
    FlightDataAppend(origin, destination, a, b);
    assert FlightData(origin, destination, a) + [] == FlightData(origin, destination, a);
  }

  /** Reading one more listing appends its record, if it has one. */
  lemma FlightDataStep(origin: Code, destination: Code, ls: seq<Listing>, i: nat)
    requires i < |ls|
    ensures FlightData(origin, destination, ls[..i + 1])
         == FlightData(origin, destination, ls[..i])
            + (if Complete(ls[i]) then [Record(origin, destination, ls[i])] else [])
  {
    assert ls[..i + 1] == ls[..i] + [ls[i]];
    FlightDataAppend(origin, destination, ls[..i], [ls[i]]);
    FlightDataSingle(origin, destination, ls[i]);
  }

  /** The kept listings are the complete ones. */
  lemma {:induction false} KeptMembers(ls: seq<Listing>, l: Listing)
    ensures l in Kept(ls) <==> l in ls && Complete(l)
  {
    if ls != [] {
      var n := |ls| - 1;
      KeptMembers(ls[..n], l);
      assert ls == ls[..n] + [ls[n]];
    }
  }

  /** There are never more records than listings, and exactly as many when every listing is complete. */
  lemma FlightDataLength(origin: Code, destination: Code, ls: seq<Listing>)
    ensures |FlightData(origin, destination, ls)| <= |ls|
    ensures |FlightData(origin, destination, ls)| == |ls| <==> forall k :: 0 <= k < |ls| ==> Complete(ls[k])
  {
    KeptLength(ls);
  }

  lemma {:induction false} KeptLength(ls: seq<Listing>)
    ensures |Kept(ls)| <= |ls|
    ensures |Kept(ls)| == |ls| <==> forall k :: 0 <= k < |ls| ==> Complete(ls[k])
  {
    if ls != [] {
      var n := |ls| - 1;
      var front := ls[..n];
      KeptLength(front);
      var m := |Kept(front)|;
      assert |Kept(ls)| == m + (if Complete(ls[n]) then 1 else 0);
      if forall k :: 0 <= k < |ls| ==> Complete(ls[k]) {
        assert forall k :: 0 <= k < n ==> Complete(front[k]) by {
          forall k | 0 <= k < n ensures Complete(front[k]) {
            assert front[k] == ls[k];
          }
        }
        assert m == n;
      } else {
        var j :| 0 <= j < |ls| && !Complete(ls[j]);
        if j < n {
          assert front[j] == ls[j];
          assert m < n;
        }
        assert |Kept(ls)| < |ls|;
      }
    }
  }

  /** A record comes from a complete listing of the page, and every complete listing gives one. */
  lemma FlightDataMembers(origin: Code, destination: Code, ls: seq<Listing>, r: FlightRecord)
    ensures r in FlightData(origin, destination, ls)
        <==> exists l :: l in ls && Complete(l) && r == Record(origin, destination, l)
  {
    var ks := Kept(ls);
    var rs := FlightData(origin, destination, ls);
    if r in rs {
      var j :| 0 <= j < |rs| && rs[j] == r;
      KeptMembers(ls, ks[j]);
    }
    if exists l :: l in ls && Complete(l) && r == Record(origin, destination, l) {
      var l :| l in ls && Complete(l) && r == Record(origin, destination, l);
      KeptMembers(ls, l);
      var j :| 0 <= j < |ks| && ks[j] == l;
      assert rs[j] == r;
    }
  }

  /** A page gives no record exactly when none of its listings is complete. */
  lemma FlightDataEmpty(origin: Code, destination: Code, ls: seq<Listing>)
    ensures FlightData(origin, destination, ls) == [] <==> forall k :: 0 <= k < |ls| ==> !Complete(ls[k])
  {
    var ks := Kept(ls);
    if ks != [] {
      KeptMembers(ls, ks[0]);
    } else if exists k :: 0 <= k < |ls| && Complete(ls[k]) {
      var k :| 0 <= k < |ls| && Complete(ls[k]);
      KeptMembers(ls, ls[k]);
    }
  }

  /**
   * What a record holds: the searched route, the whitespace-trimmed texts of
   * the listing it came from, and that listing's price read by format_price.
   */
  lemma FlightDataFields(origin: Code, destination: Code, ls: seq<Listing>, r: FlightRecord)
    requires r in FlightData(origin, destination, ls)
    ensures r.origin == origin && r.destination == destination
    ensures exists l :: l in ls && Complete(l)
                && r.departureTime == Strip(l.departure.value)
                && r.arrivalTime == Strip(l.arrival.value)
                && r.flightNumber == Strip(l.flightNumber.value)
                && r.price == FormatPrice(l.price.value)
  {
    FlightDataMembers(origin, destination, ls, r);
  }

  /** The departure and arrival are only trimmed: a 12-hour time is not converted. */
  lemma TwelveHourTimesKept()
    ensures Record("ORD", "JFK", Listing(Some("$99"), Some("10:00 AM"), Some(" 1:05 PM"), Some("F9 1234"))).departureTime
         == "10:00 AM"
  {
    StripUnchanged("10:00 AM");
  }

  // ---------------------------------------------------------------------
  // Properties of the aggregation over routes
  // ---------------------------------------------------------------------

  lemma {:induction false} ConcatAppend(a: seq<seq<FlightRecord>>, b: seq<seq<FlightRecord>>)
    ensures Concat(a + b) == Concat(a) + Concat(b)
    decreases |b|
  {
    if b == [] {
      assert a + b == a;
    } else {
      var n := |b| - 1;
      assert (a + b)[..|a + b| - 1] == a + b[..n];
      assert (a + b)[|a + b| - 1] == b[n];
      ConcatAppend(a, b[..n]);
      calc {
        Concat(a + b);
        Concat(a + b[..n]) + b[n];
        (Concat(a) + Concat(b[..n])) + b[n];
        Concat(a) + (Concat(b[..n]) + b[n]);
      }
    }
  }

  lemma {:induction false} ConcatEmpty(xs: seq<seq<FlightRecord>>)
    ensures Concat(xs) == [] <==> forall k :: 0 <= k < |xs| ==> xs[k] == []
  {
    if xs != [] {
      var n := |xs| - 1;
      ConcatEmpty(xs[..n]);
      assert forall k :: 0 <= k < n ==> xs[..n][k] == xs[k];
    }
  }

  lemma {:induction false} ConcatMembers(xs: seq<seq<FlightRecord>>, r: FlightRecord)
    requires r in Concat(xs)
    ensures exists k :: 0 <= k < |xs| && r in xs[k]
  {
    var n := |xs| - 1;
    if r in Concat(xs[..n]) {
      ConcatMembers(xs[..n], r);
      var k :| 0 <= k < n && r in xs[..n][k];
      assert xs[k] == xs[..n][k];
    } else {
      assert r in xs[n];
    }
  }

  lemma RouteResultsAppend(r1: seq<Route>, p1: seq<Response>, r2: seq<Route>, p2: seq<Response>)
    requires |p1| == |r1| && |p2| == |r2|
    ensures RouteResults(r1 + r2, p1 + p2) == RouteResults(r1, p1) + RouteResults(r2, p2)
  {
    var n := |r1|;
    assert forall k :: 0 <= k < |r1 + r2| ==>
      (r1 + r2)[k] == (if k < n then r1[k] else r2[k - n]) &&
      (p1 + p2)[k] == (if k < n then p1[k] else p2[k - n]);
  }

  /** The routes' results are concatenated in route order. */
  lemma CollectedAppend(r1: seq<Route>, p1: seq<Response>, r2: seq<Route>, p2: seq<Response>)
    requires |p1| == |r1| && |p2| == |r2|
    ensures Collected(r1 + r2, p1 + p2) == Collected(r1, p1) + Collected(r2, p2)
  {
    RouteResultsAppend(r1, p1, r2, p2);
    ConcatAppend(RouteResults(r1, p1), RouteResults(r2, p2));
  }

  /** A single route contributes what its search gave. */
  lemma CollectedSingle(route: Route, response: Response)
    ensures Collected([route], [response]) == Fetch(route.0, route.1, response)
  {
    var xs := RouteResults([route], [response]);
    assert xs[..0] == [];
    assert xs[0] == Fetch(route.0, route.1, response);
    assert Concat(xs) == Concat(xs[..0]) + xs[0];
  }

  /**
   * Route k's records sit between those of the routes before it and those
   * after it; in particular a failed route drops its own records and no
   * other route's.
   */
  lemma CollectedSplit(routes: seq<Route>, responses: seq<Response>, k: nat)
    requires |responses| == |routes| && k < |routes|
    ensures Collected(routes, responses)
         == Collected(routes[..k], responses[..k])
            + Fetch(routes[k].0, routes[k].1, responses[k])
            + Collected(routes[k + 1..], responses[k + 1..])
  {
    var r := [routes[k]];
    var p := [responses[k]];
    CollectedSingle(routes[k], responses[k]);
    assert routes == routes[..k] + r + routes[k + 1..];
    assert responses == responses[..k] + p + responses[k + 1..];
    CollectedAppend(routes[..k] + r, responses[..k] + p, routes[k + 1..], responses[k + 1..]);
    CollectedAppend(routes[..k], responses[..k], r, p);
  }

  /** Nothing is collected exactly when every route brought back nothing. */
  lemma CollectedEmpty(routes: seq<Route>, responses: seq<Response>)
    requires |responses| == |routes|
    ensures Collected(routes, responses) == []
        <==> forall k :: 0 <= k < |routes| ==> Fetch(routes[k].0, routes[k].1, responses[k]) == []
  {
    var xs := RouteResults(routes, responses);
    ConcatEmpty(xs);
    assert forall k :: 0 <= k < |routes| ==> xs[k] == Fetch(routes[k].0, routes[k].1, responses[k]);
  }

  /** Every collected record is for one of the searched routes. */
  lemma CollectedRoutes(routes: seq<Route>, responses: seq<Response>, r: FlightRecord)
    requires |responses| == |routes|
    requires r in Collected(routes, responses)
    ensures (r.origin, r.destination) in routes
  {
    var xs := RouteResults(routes, responses);
    ConcatMembers(xs, r);
    var k :| 0 <= k < |xs| && r in xs[k];
    if responses[k].Page? {
      FlightDataFields(routes[k].0, routes[k].1, responses[k].listings, r);
    }
    assert routes[k] == (r.origin, r.destination);
  }

  /** Collecting one more route appends that route's records. */
  lemma CollectedStep(routes: seq<Route>, responses: seq<Response>, i: nat)
    requires |responses| == |routes| && i < |routes|
    ensures Collected(routes[..i + 1], responses[..i + 1])
         == Collected(routes[..i], responses[..i]) + Fetch(routes[i].0, routes[i].1, responses[i])
  {
    assert routes[..i + 1] == routes[..i] + [routes[i]];
    assert responses[..i + 1] == responses[..i] + [responses[i]];
    CollectedAppend(routes[..i], responses[..i], [routes[i]], [responses[i]]);
    CollectedSingle(routes[i], responses[i]);
  }

  // ---------------------------------------------------------------------
  // The scraper object
  // ---------------------------------------------------------------------

  /** The scraper holds the site address and the request headers; neither changes after construction. */
  class FrontierScraper {
    const baseUrl: string
    const headers: map<string, string>

    constructor()
      ensures baseUrl == BASE_URL && headers == HEADERS
    {
      baseUrl := BASE_URL;
      headers := HEADERS;
    }

    /** The request sent for one route. */
    function SearchRequest(origin: Code, destination: Code, date: string): Request
    {
      Request(baseUrl + SEARCH_PATH, SearchParams(origin, destination, date), headers)
    }

    /** The requests for a list of routes: one per route, in route order. */
    function SearchRequests(routes: seq<Route>, date: string): seq<Request>
    {
      if routes == [] then []
      else
        var n := |routes| - 1;
        SearchRequests(routes[..n], date) + [SearchRequest(routes[n].0, routes[n].1, date)]
    }

    /** There is one request per route, and the k-th is the search for the k-th route. */
    lemma {:induction false} SearchRequestsAt(routes: seq<Route>, date: string)
      ensures |SearchRequests(routes, date)| == |routes|
      ensures forall k :: 0 <= k < |routes| ==>
                SearchRequests(routes, date)[k] == SearchRequest(routes[k].0, routes[k].1, date)
    {
      if routes != [] {
        var n := |routes| - 1;
        SearchRequestsAt(routes[..n], date);
        assert forall k :: 0 <= k < n ==> routes[..n][k] == routes[k];
      }
    }

    /**
     * _get_flight_data: the request for one route and the records of the
     * page it brings back, or no records when the search failed.
     */
    method GetFlightData(origin: Code, destination: Code, date: string, response: Response)
      returns (request: Request, flights: seq<FlightRecord>)
      ensures request == SearchRequest(origin, destination, date)
      ensures flights == Fetch(origin, destination, response)
    {
      request := Request(baseUrl + SEARCH_PATH, SearchParams(origin, destination, date), headers);
      if response.Failed? {
        return request, [];
      }
      var ls := response.listings;
      flights := [];
      for i := 0 to |ls|
        invariant flights == FlightData(origin, destination, ls[..i])
      {
        FlightDataStep(origin, destination, ls, i);
        var l := ls[i];
        if !Complete(l) {
          continue;
        }
        var info := FlightRecord(origin, destination, Strip(l.departure.value), Strip(l.arrival.value),
                                 FormatPrice(l.price.value), Strip(l.flightNumber.value));
        flights := flights + [info];
      }
      assert ls[..|ls|] == ls;
    }

    /**
     * search_multiple_routes: one search per route, in route order, the
     * k-th answered by `responses[k]`; the records of all routes with the
     * given search time, or no rows when no route brought any back.
     */
    method SearchMultipleRoutes(routes: seq<Route>, date: string, responses: seq<Response>, searchTime: string)
      returns (requests: seq<Request>, rows: seq<Row>)
      requires |responses| == |routes|
      ensures requests == SearchRequests(routes, date)
      ensures rows == Stamp(Collected(routes, responses), searchTime)
    {
      var allFlights: seq<FlightRecord> := [];
      requests := [];
      for i := 0 to |routes|
        invariant requests == SearchRequests(routes[..i], date)
        invariant allFlights == Collected(routes[..i], responses[..i])
      {
        CollectedStep(routes, responses, i);
        assert routes[..i + 1][..i] == routes[..i];
        var (origin, destination) := routes[i];
        var request, flights := GetFlightData(origin, destination, date, responses[i]);
        requests := requests + [request];
        if flights != [] {
          allFlights := allFlights + flights;
        }
      }
      assert routes[..|routes|] == routes && responses[..|routes|] == responses;
      if allFlights == [] {
        return requests, [];
      }
      rows := Stamp(allFlights, searchTime);
    }
  }

  /** The table's rows all carry the one search time, and each is for a searched route. */
  lemma RowsStampedAndRouted(routes: seq<Route>, responses: seq<Response>, searchTime: string, k: nat)
    requires |responses| == |routes|
    requires k < |Stamp(Collected(routes, responses), searchTime)|
    ensures Stamp(Collected(routes, responses), searchTime)[k].searchTime == searchTime
    ensures var f := Stamp(Collected(routes, responses), searchTime)[k].flight;
            (f.origin, f.destination) in routes
  {
    var fs := Collected(routes, responses);
    CollectedRoutes(routes, responses, fs[k]);
  }
}
