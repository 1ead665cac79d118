/**
 * The registry search both scripts query, reduced to what they read from
 * its answer: the HTTP status and the integer in the `x-total-count`
 * header. The registry itself is a fixed function from the queried ISSN to
 * its answer; the throttling pause before every query has no effect on the
 * answer and is not modelled.
 */
module Doaj {

  /** The part of an HTTP response the scripts look at. */
  datatype Response = Response(status: int, totalCount: int)

  /** The registry, as seen by `requests.get(DOAJ_SEARCH + "issn:" + issn)`. */
  type Oracle = string -> Response

  /** The only status treated as success. */
  const StatusOk: int := 200
}
