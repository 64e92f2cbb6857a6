/**
 * The subscription handshake answered by `GET EVENTS_ENDPOINT`: the
 * upstream provider proves it owns the endpoint by sending `mode`,
 * `challenge` and `verify_token`, and expects the challenge echoed back.
 */
module Handshake {
  import opened Wrappers
  import opened Http

  const SubscribeMode: string := "subscribe"
  const ExpectedVerifyToken: string := "TEST_VERIFY_TOKEN"

  /** JavaScript truthiness of a `string | null`: `null` and `""` are falsy. */
  predicate Truthy(v: Option<string>) {
    v.Some? && v.value != ""
  }

  /**
   * The handler's decision. It answers 200 with the challenge as body when
   * the mode is "subscribe", the challenge is truthy and the token matches;
   * every other combination gets 400 and no body.
   */
  function Verify(mode: Option<string>, challenge: Option<string>, verifyToken: Option<string>): (r: Response)
    ensures r.status == 200 || r.status == 400
    ensures r.status == 200 <==>
      && mode == Some("subscribe")
      && challenge.Some? && |challenge.value| > 0
      && verifyToken == Some("TEST_VERIFY_TOKEN")
    ensures r.status == 200 ==> r.body == Text(challenge.value)
    ensures r.status == 400 ==> r.body == Unset
  {
    if mode == Some(SubscribeMode) && Truthy(challenge) && Some(ExpectedVerifyToken) == verifyToken then
      Response(200, Text(challenge.value))
    else
      Response(400, Unset)
  }

  /** The handler as registered: the three parameters are read from the query. */
  function HandleVerification(query: seq<(string, string)>): (r: Response)
    ensures r.status == 200 <==>
      && SearchParam(query, "mode") == Some("subscribe")
      && Truthy(SearchParam(query, "challenge"))
      && SearchParam(query, "verify_token") == Some("TEST_VERIFY_TOKEN")
    ensures r.status == 200 ==> r.body == Text(SearchParam(query, "challenge").value)
    ensures r.status != 200 ==> r == Response(400, Unset)
  {
    Verify(SearchParam(query, "mode"), SearchParam(query, "challenge"), SearchParam(query, "verify_token"))
  }

  /** An empty challenge is refused even when mode and token are right. */
  lemma EmptyChallengeRejected(query: seq<(string, string)>)
    requires SearchParam(query, "mode") == Some(SubscribeMode)
    requires SearchParam(query, "verify_token") == Some(ExpectedVerifyToken)
    requires SearchParam(query, "challenge") == Some("")
    ensures HandleVerification(query) == Response(400, Unset)
  {
  }
}
