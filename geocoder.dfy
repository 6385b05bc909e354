/**
 * `DataManager.get_coordinates`, shared by every geocoding script, and the query strings the
 * scripts build for it. The OpenCage endpoint is outside: a request either fails or
 * answers a list of results.
 */
module Geocoder {
  import opened Wrappers
  import opened Text

  /** A latitude/longitude pair. The floating-point values are opaque reals. */
  datatype Point = Point(lat: real, lon: real)

  /** What one request to the endpoint gave: a request error, or the parsed results. */
  datatype HttpReply = RequestFailed | Answered(results: seq<Point>)

  /** The endpoint, as a function of the query text. */
  type Service = string -> HttpReply

  /**
   * The first result's coordinates; `None` when no OpenCage key is set (no request is
   * made), when the request failed, or when there are no results.
   */
  function GetCoordinates(keyPresent: bool, reply: HttpReply): (r: Option<Point>)
    ensures r.Some? <==> keyPresent && reply.Answered? && |reply.results| > 0
    ensures r.Some? ==> r.value == reply.results[0]
  {
    if !keyPresent then None
    else match reply
      case RequestFailed => None
      case Answered(results) => if |results| > 0 then Some(results[0]) else None
  }

  const CitySuffix: string := ", Vellore"
  const CountrySuffix: string := ", Vellore, India"

  /** `f"{location}{suffix}"`: the location as Python prints it, then the suffix. */
  function Query(location: Option<string>, suffix: string): (q: string)
    ensures |q| == |Render(location)| + |suffix|
    ensures q[..|Render(location)|] == Render(location) && q[|Render(location)|..] == suffix
  {
    Render(location) + suffix
  }

  /** Two rows get the same query exactly when their locations print alike. */
  lemma QueryInjective(a: Option<string>, b: Option<string>, suffix: string)
    ensures Query(a, suffix) == Query(b, suffix) <==> Render(a) == Render(b)
  {
    if Query(a, suffix) == Query(b, suffix) {
      var ra, rb := Render(a), Render(b);
      assert |ra| == |rb|;
      assert ra == Query(a, suffix)[..|ra|];
    }
  }

  /** A NULL location is searched as the literal text "None". */
  lemma NullLocationQuery()
    ensures Query(None, CitySuffix) == "None, Vellore"
    ensures Query(None, CitySuffix) == Query(Some("None"), CitySuffix)
  {
  }
}
