/** The query parameters the flight search sends with its request. */
module FlightSearch {

  /**
   * `searchFlights` builds `params` from `{}`, adding each of origin,
   * destination and date only when its input is a non-empty string (every
   * other string is truthy: nothing is trimmed).
   */
  method SearchParams(origin: string, destination: string, date: string) returns (params: map<string, string>)
    ensures "origin" in params <==> origin != ""
    ensures "origin" in params ==> params["origin"] == origin
    ensures "destination" in params <==> destination != ""
    ensures "destination" in params ==> params["destination"] == destination
    ensures "date" in params <==> date != ""
    ensures "date" in params ==> params["date"] == date
    ensures params.Keys <= {"origin", "destination", "date"}
    ensures origin == "" && destination == "" && date == "" ==> params == map[]
  {
    params := map[];
    if origin != "" {
      params := params["origin" := origin];
    }
    if destination != "" {
      params := params["destination" := destination];
    }
    if date != "" {
      params := params["date" := date];
    }
  }
}
