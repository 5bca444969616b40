/**
 * The weather service as the extraction sees it: for each city name it answers
 * with a status code, a JSON body and the body's text. `get_city` returns the
 * body when the status is 200 and raises otherwise. The body is given already
 * flattened, as `pd.json_normalize` names its fields ("main.temp").
 */
module WeatherApi {
  import opened Wrappers
  import opened Frame

  datatype Response = Response(statusCode: int, body: Record, text: string)

  /** The exception `get_city` raises: the status code and the response text. */
  datatype ApiError = ApiError(statusCode: int, text: string)

  function FetchResult(response: Response): (r: Result<Record, ApiError>)
    ensures r.Success? <==> response.statusCode == 200
    ensures r.Success? ==> r.value == response.body
    ensures r.Failure? ==> r.error == ApiError(response.statusCode, response.text)
  {
    if response.statusCode == 200 then Success(response.body)
    else Failure(ApiError(response.statusCode, response.text))
  }

  class WeatherApiClient {
    const apiKey: string
    /** What the service answers for a city name. */
    const service: string -> Response
    /** The city names requested so far, one GET each. */
    var requested: seq<string>

    constructor(apiKey: string, service: string -> Response)
      ensures this.apiKey == apiKey && this.service == service && requested == []
    {
      this.apiKey, this.service, requested := apiKey, service, [];
    }

    method GetCity(cityName: string) returns (r: Result<Record, ApiError>)
      modifies this
      ensures requested == old(requested) + [cityName]
      ensures r == FetchResult(service(cityName))
    {
      requested := requested + [cityName];
      r := FetchResult(service(cityName));
    }
  }
}
