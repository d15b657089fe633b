# mljcl decision logic in Dafny

A model of the request-building and response-classifying core of `mljcl`, a
Rust client for the HTTP API of a Maloja scrobble server. Two modules follow
the two source files:

- `Mljcl` (`mljcl.dfy`, for `src/lib.rs`) holds the error taxonomy
  `RequestError`, the credentials and the base URL `get_url` derives from them,
  and `full_query_path`. It also holds the header filter `parse_headers`,
  written as a loop over the header keys; `handle_response`, the one point
  where every answer is classified; and the request and outcome of
  `scrobble_async`.
- `History` (`history.dfy`, for `src/history.rs`) holds the `ScrobblesReq`
  query record and the listing and count requests. It also holds
  `MapScrobbles`, the loop that turns a listing into scrobbles one entry at a
  time, `AmountResult` for the count, and the operations `scrobbles_async` and
  `numscrobbles_async`.

Whatever the source gets from code outside these two files is a parameter:

- `send`: the network, a function from the request to what came back
  (`Transport`).
- `validName` / `validValue`: the header-name and header-value checks of the
  HTTP library.
- `encode`: the query-string encoder.
- `processRange`: the range resolver.
- `fromTrackRes`: the wire-track mapper, used as `Track::from_trackres(_, None)`.
- `inTimeRange`: the range of timestamps the time library accepts.

A response body that fails to decode is the `Malformed` variant of what came
back, and a decoded body is an `Envelope` of status, optional error
descriptor and payload. Times are integer seconds. Rust's `u16` and `u64`
are newtypes.

Where the source panics, the model has a precondition instead of an error
result. This covers the `unwrap` of the API key, of the listing's `list`, of
the timestamp's conversion to `i64`, and of `DateTime::from_timestamp`. A
reimplementation could return typed errors here; the model keeps the code's
panics as preconditions.

## Model

| member | source | states |
|---|---|---|
| `Mljcl.Decimal` | src/lib.rs:51 | the port is written as a non-empty string of decimal digits without a leading zero, and port 0 as exactly `0` |
| `Mljcl.DecimalRoundTrip` | src/lib.rs:51 | reading the port's numeral back gives the port: rendering loses nothing |
| `Mljcl.TrimLeadingSlashes` | src/lib.rs:47 | the result is a suffix of the input, everything dropped is `/`, and it does not begin with `/` |
| `Mljcl.TrimTrailingSlashes` | src/lib.rs:47 | the result is a prefix of the input, everything dropped is `/`, and it does not end with `/` |
| `Mljcl.TrimSlashes` | src/lib.rs:47 | `trim_matches('/')`: empty exactly when the path is all slashes, otherwise no `/` at either end, and a path with no boundary slash is unchanged |
| `Mljcl.TrimSlashesIsInfix` | src/lib.rs:47 | the result is the input's own middle: a run of slashes, then the result character for character, then a run of slashes; nothing else is dropped or changed |
| `Mljcl.TrimLeadingSlashesAppend` | src/lib.rs:47 | adding a trailing `/` to a path that is not all slashes adds it after leading-slash trimming, and yields nothing for an all-slash path |
| `Mljcl.TrimSlashesAbsorbsSlash` | src/lib.rs:47 | one more `/` at either end of the path does not change the trimmed path |
| `Mljcl.SubPathShape` | src/lib.rs:47-50 | the path part is empty exactly when there is no path or it is all slashes; otherwise it is `"/"` followed by the trimmed path, with no second slash after the first and no slash at the end |
| `Mljcl.GetUrlShape` | src/lib.rs:42-51 | the base URL begins with `protocol + ip + ":" + port`, whatever follows the port begins with `/`, and the URL never ends with `/` |
| `Mljcl.ProtocolPrefix` | src/lib.rs:43-46 | a URL built on the chosen protocol starts with "https://" exactly when `https` is set, and with "http://" exactly when it is not |
| `Mljcl.GetUrlScheme` | src/lib.rs:43-51 | `get_url` starts with "https://" if and only if `https`, and with "http://" if and only if not |
| `Mljcl.GetUrlWithoutPath` | src/lib.rs:47-51 | with no path, or an all-slash path, the URL is `protocol + ip + ":" + port` with nothing after the port |
| `Mljcl.GetUrlWithPath` | src/lib.rs:47-51 | otherwise exactly `"/" + trimmed` follows the port, and `trimmed` is non-empty with no `/` at either end |
| `Mljcl.GetUrlEmptyPath` | src/lib.rs:47 | the path `Some("")` gives the same URL as no path |
| `Mljcl.GetUrlIgnoresSurroundingSlashes` | src/lib.rs:47-51 | prefixing or suffixing the path with `/` leaves the URL unchanged |
| `Mljcl.GetUrlSamePathExample` | src/lib.rs:47 | the paths "a/b", "/a/b" and "//a/b/" give one and the same URL |
| `Mljcl.FullQueryPath` | src/lib.rs:55-65 | the path is always a prefix of the result; the result is the bare path exactly when the query string is empty, and otherwise continues with `?` and the query string |
| `Mljcl.FullQueryPathRoundTrip` | src/lib.rs:55-65 | for a path without `?`, splitting the joined URL at its first `?` gives back the path and the query string |
| `Mljcl.ValidHeaders` | src/lib.rs:67-80 | no headers give the empty map; otherwise a name is kept if and only if both it and its value are valid, and it keeps its given value |
| `Mljcl.ParseHeaders` | src/lib.rs:67-80 | no headers give the empty map; otherwise a name is in the result if and only if it was given with a valid name and value, its value is the given one, and invalid pairs are skipped without failing |
| `Mljcl.HandleResponse` | src/lib.rs:82-98 | a failed send and an undecodable body are `LocalError`s with their cause, never `ServerError`; a decoded body that reports an error is `ServerError` with exactly its `desc`; only an error-free decoded body is `Ok`, and it is returned unchanged |
| `Mljcl.ScrobbleBody` | src/lib.rs:108-118 | needs the API key; the body has `artist = Some(artist)`, the given title and `key` = the API key, and `artists`, `album`, `albumartists`, `duration`, `length` and `time` all absent |
| `Mljcl.ScrobbleRequest` | src/lib.rs:119-122 | a POST to `get_url() + "/apis/mlj_1/newscrobble"` with the valid headers, carrying exactly that body |
| `Mljcl.ScrobbleAsync` | src/lib.rs:107-126 | needs the API key; the outcome is the classification of the answer to exactly that request |
| `History.ListingQuery` | src/history.rs:14-22 | `from`, `until` and `in` are the range triple in order; the artist is passed through; `page` and `perpage` are the caller's paging |
| `History.CountQuery` | src/history.rs:51-60 | the same range fields and artist, with `page` and `perpage` both absent |
| `History.CountQueryIsUnpagedListing` | src/history.rs:53-59 | the count query is the listing query without paging, and the two differ in the paging fields only |
| `History.ListingRequest` | src/history.rs:23-27 | a GET without a body, with the valid headers, to `full_query_path(encoded query, get_url() + "/apis/mlj_1/scrobbles")` |
| `History.CountRequest` | src/history.rs:61-65 | a GET without a body, with the valid headers, to `full_query_path(encoded query, get_url() + "/apis/mlj_1/numscrobbles")` |
| `History.ToDateTime` | src/history.rs:35 | a timestamp becomes a point in time exactly when it fits `i64` and the time library accepts it, and the point is that same number of epoch seconds |
| `History.ListingUsable` | src/history.rs:33-35 | when the client does not abort: a failed send, an undecodable body or any classified error never aborts it; a success without `list` always does; a success is usable if and only if its `list` is present and every timestamp in it converts |
| `History.MapScrobbles` | src/history.rs:33-38 | one scrobble per entry, same length and order, each with the entry's epoch-seconds time and its mapped track; every timestamp must convert (`ToDateTime`) |
| `History.ScrobblesAsync` | src/history.rs:13-41 | an error from the classification is returned unchanged; on success the result pairs one-for-one and in order with the response list |
| `History.AmountResult` | src/history.rs:71-74 | `Ok(n)` exactly when the response carries the count `n`, otherwise `ServerError` with the response's status |
| `History.NumscrobblesAsync` | src/history.rs:50-77 | an error from the classification is returned unchanged; otherwise the count, or `ServerError(status)` when there is none |
| `History.CountOutcomes` | src/history.rs:66-75 | for a count: a failed send and an undecodable body are each a `LocalError` with its cause; a reported error is a `ServerError` with its description; an error-free response gives its amount or its status |
| `History.CountExamples` | src/history.rs:71-74 | `{status: "ok", no error, no amount}` yields `ServerError("ok")`, and an amount of 42 yields `Ok(42)` |

## Left out

- The HTTP client: how it is built (`get_client_async`), its TLS settings and the certificate bypass flag, and the send calls. The network is the `send` parameter, so `skipCertVerification` is carried but never read.
- The blocking wrappers `scrobble`, `scrobbles` and `numscrobbles` and the tokio runtime behind them. They only drive the async operations to completion.
- JSON decoding and query-string encoding. A decode failure is the `Malformed` variant, and the encoder is the `encode` parameter. `src/json.rs` is not part of this model, so the field types of the wire records are assumed to be: epoch seconds as `int`, counts and paging as `u64`, and an error descriptor with a kind and a `desc`.
- The header name and value validation rules, and the lower-casing of header names. Validity is the `validName` / `validValue` parameters. Without lower-casing, distinct keys stay distinct, so the order in which the loop visits keys does not matter.
- `RequestError.LocalError` carries a description of the library's error, not the library's error object.
- The time library. A timestamp is kept as its integer seconds. The time library's accepted range is the `inTimeRange` parameter, and the `i64` conversion is written out in `ToDateTime`.
- `process_range` and `Track::from_trackres` (`src/range.rs` and `src/types.rs` are not part of this model). They are the `processRange` and `fromTrackRes` parameters.
- The `charts` and `art` modules (not part of this model).
- Cancellation and concurrency: each call is one sequential step here.
