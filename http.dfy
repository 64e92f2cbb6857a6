/**
 * The slice of the HTTP layer the router's handlers touch: the response
 * they set (a status and, optionally, a body) and the lookup of a query
 * parameter by name.
 */
module Http {
  import opened Wrappers

  /** What a handler leaves in `ctx.response.body`. */
  datatype Body =
    | Unset                          // the handler never assigned a body
    | Text(text: string)             // a plain string body
    | Outcome(isSuccessful: bool)    // the JSON object `{ isSuccessful: ... }`

  datatype Response = Response(status: int, body: Body)

  /**
   * `URLSearchParams.get(name)`: the value of the first pair whose name is
   * `name`, or `None` (JavaScript's `null`) when no pair has that name.
   * The pairs are the query string after percent-decoding.
   */
  function SearchParam(params: seq<(string, string)>, name: string): (r: Option<string>)
    ensures r.None? <==> forall i :: 0 <= i < |params| ==> params[i].0 != name
    ensures r.Some? ==>
      exists i :: 0 <= i < |params| && params[i] == (name, r.value) &&
        forall j :: 0 <= j < i ==> params[j].0 != name
  {
    if params == [] then None
    else if params[0].0 == name then Some(params[0].1)
    else
      var r := SearchParam(params[1..], name);
      assert forall i :: 1 <= i < |params| ==> params[i] == params[1..][i - 1];
      r
  }
}
