/** Listing and counting a user's scrobbles.

    Both operations resolve the caller's range into the three wire fields,
    build a `ScrobblesReq`, encode it into the query string of a GET to
    their endpoint, and classify the answer through `HandleResponse`. The
    range resolver, the query-string encoder and the wire-track mapper are
    parameters, as are the network and the set of timestamps the time
    library can represent. */
module History {
  import opened Mljcl

  /** The three wire fields a range resolves to: absolute bounds in epoch
      seconds, or a relative bucket. */
  datatype RangeParams = RangeParams(from: Option<int>, until: Option<int>, within: Option<string>)

  /** The query record shared by the listing and the count; `within` is the
      wire field `in`. */
  datatype ScrobblesReq = ScrobblesReq(
    from: Option<int>,
    until: Option<int>,
    within: Option<string>,
    artist: Option<string>,
    page: Option<u64>,
    perpage: Option<u64>)

  /** One entry of a listing as it comes off the wire. */
  datatype ScrobbleEntry<TR> = ScrobbleEntry(time: int, track: TR)

  /** A play: its time in epoch seconds and the track. */
  datatype Scrobble<T> = Scrobble(time: int, track: T)

  type ScrobblesRes<TR> = Envelope<Option<seq<ScrobbleEntry<TR>>>>
  type NumscrobblesRes = Envelope<Option<u64>>

  const ScrobblesPath := "/apis/mlj_1/scrobbles"
  const NumscrobblesPath := "/apis/mlj_1/numscrobbles"

  /** The query of a listing: the range fields in order, the artist filter,
      and the caller's paging. */
  function ListingQuery(artist: Option<string>, range: RangeParams,
                        pageNumber: Option<u64>, scrobblesPerPage: Option<u64>): (q: ScrobblesReq)
    ensures q.from == range.from && q.until == range.until && q.within == range.within
    ensures q.artist == artist
    ensures q.page == pageNumber && q.perpage == scrobblesPerPage
  {
    ScrobblesReq(range.from, range.until, range.within, artist, pageNumber, scrobblesPerPage)
  }

  /** The query of a count: the same record with no paging at all. */
  function CountQuery(artist: Option<string>, range: RangeParams): (q: ScrobblesReq)
    ensures q.from == range.from && q.until == range.until && q.within == range.within
    ensures q.artist == artist
    ensures q.page.None? && q.perpage.None?
  {
    ScrobblesReq(range.from, range.until, range.within, artist, None, None)
  }

  /** A count asks the same question as a listing whose paging is unset, and
      a listing differs from the count only in its paging fields. */
  lemma {:induction false} CountQueryIsUnpagedListing(artist: Option<string>, range: RangeParams,
                                                      pageNumber: Option<u64>, scrobblesPerPage: Option<u64>)
    ensures CountQuery(artist, range) == ListingQuery(artist, range, None, None)
    ensures ListingQuery(artist, range, pageNumber, scrobblesPerPage)
         == CountQuery(artist, range).(page := pageNumber, perpage := scrobblesPerPage)
  {
  }

  /** The GET of a listing: the encoded query joined to the listing endpoint. */
  function ListingRequest<R>(artist: Option<string>, range: R, processRange: R -> RangeParams,
                             pageNumber: Option<u64>, scrobblesPerPage: Option<u64>,
                             c: Credentials, encode: ScrobblesReq -> string,
                             validName: string -> bool, validValue: string -> bool): (req: HttpRequest)
    ensures req.verb == Get && req.body.None?
    ensures req.url == FullQueryPath(encode(ListingQuery(artist, processRange(range), pageNumber, scrobblesPerPage)),
                                     GetUrl(c) + "/apis/mlj_1/scrobbles")
    ensures req.headers == ValidHeaders(c.headers, validName, validValue)
  {
    var query := ListingQuery(artist, processRange(range), pageNumber, scrobblesPerPage);
    HttpRequest(Get, FullQueryPath(encode(query), GetUrl(c) + ScrobblesPath),
                ValidHeaders(c.headers, validName, validValue), None)
  }

  /** The GET of a count: the encoded unpaged query joined to the count endpoint. */
  function CountRequest<R>(artist: Option<string>, range: R, processRange: R -> RangeParams,
                           c: Credentials, encode: ScrobblesReq -> string,
                           validName: string -> bool, validValue: string -> bool): (req: HttpRequest)
    ensures req.verb == Get && req.body.None?
    ensures req.url == FullQueryPath(encode(CountQuery(artist, processRange(range))),
                                     GetUrl(c) + "/apis/mlj_1/numscrobbles")
    ensures req.headers == ValidHeaders(c.headers, validName, validValue)
  {
    var query := CountQuery(artist, processRange(range));
    HttpRequest(Get, FullQueryPath(encode(query), GetUrl(c) + NumscrobblesPath),
                ValidHeaders(c.headers, validName, validValue), None)
  }

  // ---------------------------------------------------------------------
  // Result mapping

  /** The point in time of a wire timestamp, as the client computes it: a
      conversion to `i64`, which fails outside that width, and then the time
      library's constructor, which fails outside its range. Either failure
      is `None`; a point in time is kept as its epoch seconds. */
  function ToDateTime(t: int, inTimeRange: int -> bool): (dt: Option<int>)
    ensures dt.Some? <==> -0x8000_0000_0000_0000 <= t < 0x8000_0000_0000_0000 && inTimeRange(t)
    ensures dt.Some? ==> dt.value == t
  {
    var secs := if -0x8000_0000_0000_0000 <= t < 0x8000_0000_0000_0000 then Some(t) else None;
    match secs
    case None => None
    case Some(s) => if inTimeRange(s) then Some(s) else None
  }

  /** Every entry of a listing, paired one for one and in order with the
      scrobble made from it: its own time and its mapped track. */
  method MapScrobbles<TR, T>(list: seq<ScrobbleEntry<TR>>, fromTrackRes: TR -> T, inTimeRange: int -> bool)
    returns (scrobbles: seq<Scrobble<T>>)
    requires forall i :: 0 <= i < |list| ==> ToDateTime(list[i].time, inTimeRange).Some?
    ensures |scrobbles| == |list|
    ensures forall i :: 0 <= i < |list| ==>
      scrobbles[i].time == list[i].time && scrobbles[i].track == fromTrackRes(list[i].track)
  {
    scrobbles := [];
    for n := 0 to |list|
      invariant |scrobbles| == n
      invariant forall i :: 0 <= i < n ==>
        scrobbles[i].time == list[i].time && scrobbles[i].track == fromTrackRes(list[i].track)
    {
      var entry := list[n];
      var dt := ToDateTime(entry.time, inTimeRange).value;
      scrobbles := scrobbles + [Scrobble(dt, fromTrackRes(entry.track))];
    }
  }

  /** What a successful listing must look like for the client not to abort:
      the list is present and every timestamp is representable. */
  function ListingUsable<TR>(response: Transport<ScrobblesRes<TR>>, inTimeRange: int -> bool): (usable: bool)
    ensures response.SendFailed? || response.body.Malformed? ==> usable
    ensures HandleResponse(response).Err? ==> usable
    ensures HandleResponse(response).Ok? && HandleResponse(response).value.payload.None? ==> !usable
    ensures usable && HandleResponse(response).Ok? ==>
      forall i :: 0 <= i < |HandleResponse(response).value.payload.value| ==>
        ToDateTime(HandleResponse(response).value.payload.value[i].time, inTimeRange).Some?
    ensures HandleResponse(response).Ok? ==>
      (usable <==>
         (HandleResponse(response).value.payload.Some? &&
          forall i :: 0 <= i < |HandleResponse(response).value.payload.value| ==>
            ToDateTime(HandleResponse(response).value.payload.value[i].time, inTimeRange).Some?))
  {
    match HandleResponse(response)
    case Err(_) => true
    case Ok(env) =>
      env.payload.Some? &&
      forall i :: 0 <= i < |env.payload.value| ==> ToDateTime(env.payload.value[i].time, inTimeRange).Some?
  }

  /** Lists scrobbles. An error from the response classification is passed
      on unchanged; otherwise the result holds one scrobble per listed entry,
      in the server's order, each with that entry's epoch-seconds time. */
  method ScrobblesAsync<R, TR, T>(artist: Option<string>, range: R, processRange: R -> RangeParams,
                                  pageNumber: Option<u64>, scrobblesPerPage: Option<u64>,
                                  c: Credentials, encode: ScrobblesReq -> string,
                                  validName: string -> bool, validValue: string -> bool,
                                  send: HttpRequest -> Transport<ScrobblesRes<TR>>,
                                  fromTrackRes: TR -> T, inTimeRange: int -> bool)
    returns (r: Result<seq<Scrobble<T>>>)
    requires ListingUsable(send(ListingRequest(artist, range, processRange, pageNumber, scrobblesPerPage,
                                               c, encode, validName, validValue)), inTimeRange)
    ensures var classified := HandleResponse(send(ListingRequest(artist, range, processRange, pageNumber,
                                                                 scrobblesPerPage, c, encode, validName, validValue)));
      match classified
      case Err(e) => r == Err(e)
      case Ok(env) =>
        r.Ok? && |r.value| == |env.payload.value| &&
        forall i :: 0 <= i < |r.value| ==>
          r.value[i] == Scrobble(env.payload.value[i].time, fromTrackRes(env.payload.value[i].track))
  {
    var headers := ParseHeaders(c.headers, validName, validValue);
    var request := ListingRequest(artist, range, processRange, pageNumber, scrobblesPerPage,
                                  c, encode, validName, validValue).(headers := headers);
    var response := send(request);
    var classified := HandleResponse(response);
    match classified
    case Err(error) =>
      r := Err(error);
    case Ok(env) =>
      var scrobbles := MapScrobbles(env.payload.value, fromTrackRes, inTimeRange);
      r := Ok(scrobbles);
  }

  /** The count carried by a count response, or a server error naming the
      response's status when the count is missing. */
  function AmountResult(response: NumscrobblesRes): (r: Result<u64>)
    ensures r.Ok? <==> response.payload.Some?
    ensures r.Ok? ==> r.value == response.payload.value
    ensures r.Err? ==> r.error == ServerError(response.status)
  {
    match response.payload
    case Some(amount) => Ok(amount)
    case None => Err(ServerError(response.status))
  }

  /** Counts scrobbles. An error from the response classification is passed
      on unchanged; otherwise the count, or a server error carrying the
      status when the response has no count. */
  method NumscrobblesAsync<R>(artist: Option<string>, range: R, processRange: R -> RangeParams,
                              c: Credentials, encode: ScrobblesReq -> string,
                              validName: string -> bool, validValue: string -> bool,
                              send: HttpRequest -> Transport<NumscrobblesRes>)
    returns (r: Result<u64>)
    ensures var classified := HandleResponse(send(CountRequest(artist, range, processRange, c, encode,
                                                               validName, validValue)));
      match classified
      case Err(e) => r == Err(e)
      case Ok(env) => r == AmountResult(env)
  {
    var headers := ParseHeaders(c.headers, validName, validValue);
    var request := CountRequest(artist, range, processRange, c, encode, validName, validValue).(headers := headers);
    var response := send(request);
    match HandleResponse(response)
    case Err(error) =>
      r := Err(error);
    case Ok(env) =>
      r := AmountResult(env);
  }

  /** The outcomes of a count, read back from what was received: a failed
      send or an undecodable body is a local error, a reported error is a
      server error with its description, and a clean response yields its
      count or, without one, a server error naming its status. */
  lemma CountOutcomes(response: Transport<NumscrobblesRes>, r: Result<u64>)
    requires r == match HandleResponse(response) case Err(e) => Err(e) case Ok(env) => AmountResult(env)
    ensures response.SendFailed? ==> r == Err(LocalError(response.cause))
    ensures response.Received? && response.body.Malformed? ==> r == Err(LocalError(response.body.cause))
    ensures response.Received? && response.body.Parsed? && response.body.record.error.Some? ==>
      r == Err(ServerError(response.body.record.error.value.desc))
    ensures response.Received? && response.body.Parsed? && response.body.record.error.None? ==>
      r == AmountResult(response.body.record)
  {
  }

  /** A clean response without a count is reported as a server error whose
      description is the status, and one with a count of 42 yields 42. */
  lemma CountExamples()
    ensures var r := HandleResponse(Received(Parsed(Envelope("ok", None, None))));
      r.Ok? && AmountResult(r.value) == Err(ServerError("ok"))
    ensures var r := HandleResponse(Received(Parsed(Envelope("ok", None, Some(42 as u64)))));
      r.Ok? && AmountResult(r.value) == Ok(42)
  {
  }
}
