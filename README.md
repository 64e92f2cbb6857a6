# Webhook relay router, modelled in Dafny

A model of the relay logic of `router.ts` in a small Oak (Deno) server that
receives webhook callbacks and relays them to browsers over server-sent
events. Three parts are modelled:

- **The subscription handshake** (`GET EVENTS_ENDPOINT`). The handler reads
  `mode`, `challenge` and `verify_token` from the query string. It answers 200 with the challenge as body only when the mode is
  `"subscribe"`, the challenge is truthy (present and non-empty) and the
  token equals the constant `"TEST_VERIFY_TOKEN"`; otherwise it answers 400
  and sets no body. Modelled as pure functions in `handshake.dfy`, over the
  query lookup of `http.dfy`.
- **The subscriber registry** (`clientTargets`). A JavaScript `Set` of stream
  targets, modelled as a duplicate-free sequence of abstract target ids in
  insertion (iteration) order. `GET /sse` opens a fresh target and adds it;
  the target's `close` listener deletes it. The sequence functions and
  their lemmas are in `registry.dfy`; the state is the class `Router.Relay`
  in `router.dfy`.
- **Live fan-out on publish** (`POST EVENTS_ENDPOINT`). One event with topic
  `"events"` and the serialized payload as data is dispatched to every
  registered target in iteration order; the answer is 200
  `{ isSuccessful: true }`, or 500 as soon as one dispatch throws. Each
  target's received events are a log (`Relay.logs`), and a throwing dispatch
  is an explicit `false` result of `Relay.Dispatch`. The reference semantics
  (`DeliverTo`, `FirstFailure`) and their lemmas are in `fanout.dfy`; the
  loop is `Relay.DispatchAll`.

Files: `wrappers.dfy` (Option), `http.dfy` (responses, query lookup),
`handshake.dfy`, `registry.dfy`, `fanout.dfy`, `router.dfy`.

## Behaviour of the code worth noting

- the verify token is the constant `"TEST_VERIFY_TOKEN"`;
- an empty `challenge` is refused, since the code tests truthiness, not
  presence;
- only the parameter names `mode`, `challenge` and `verify_token` are read;
- a failing dispatch ends the fan-out with a 500: the later targets are not
  served and the failing target is not removed from `clientTargets`;
- the code keeps no event history, replays nothing to late subscribers and
  checks no signature, so none of that is modelled.

## Model

| member | source | states |
|---|---|---|
| Http.SearchParam | router.ts:47-49 | `searchParams.get`: None exactly when no pair has the name; otherwise the value of the first pair with that name |
| Handshake.Verify | router.ts:50-55 | status is 200 or 400; 200 iff mode is "subscribe", the challenge is present and non-empty and the token is "TEST_VERIFY_TOKEN"; on 200 the body is exactly the challenge; on 400 no body is set (its helper `Truthy` is JavaScript truthiness of a possibly-null string) |
| Handshake.HandleVerification | router.ts:46-56 | the handler on a whole query: 200 with the challenge as body iff the three looked-up parameters pass; otherwise exactly 400 with no body |
| Handshake.EmptyChallengeRejected | router.ts:50 | an empty challenge gets 400 with no body even when mode and token are correct |
| Registry.Without | router.ts:42 | `Set.delete`: the result holds exactly the old members other than the deleted one, and is no longer |
| Registry.WithoutAbsent | router.ts:41-43 | deleting a target that is not registered leaves the registry unchanged |
| Registry.WithoutIdempotent | router.ts:41-43 | deleting the same target twice is the same as deleting it once |
| Registry.WithoutAt | router.ts:42 | in a duplicate-free registry, deleting the member at position i removes exactly that position and keeps the others in order |
| Registry.WithoutNoDuplicates | router.ts:36 | deletion keeps the registry free of duplicates |
| Registry.AddThenDelete | router.ts:38-43 | adding a new target and then closing it restores the registry exactly |
| FanOut.DeliverTo | router.ts:63-65 | dispatching to a list of targets in turn keeps the set of targets that have logs |
| FanOut.FirstFailure | router.ts:62-70 | the position at which the loop stops: every earlier dispatch succeeds, the one there fails, and it is the end of the list iff no registered target fails |
| FanOut.DeliverToAt | router.ts:63-65 | over distinct targets, each listed target's log gains the event exactly once at its end and every other log is unchanged |
| FanOut.FirstFailureAt | router.ts:63-69 | a position whose predecessors all succeed and which fails (or is the end) is the stopping position |
| FanOut.PrefixDelivery | router.ts:62-70 | delivering to the first k targets gives positions below k the event once and leaves position k onward, and unregistered targets, unchanged |
| FanOut.FanOutOutcome | router.ts:61-70 | when no dispatch fails every registered target gets the event once and nobody else does; when one fails the earlier targets got it and that one and the later ones did not |
| Router.Relay.constructor | router.ts:36 | the registry starts empty, with no logs |
| Router.Relay.Connect | router.ts:38-40 | the new target is distinct from all earlier ones, is appended to the registry, gets an empty log, and nothing else changes |
| Router.Relay.Close | router.ts:41-43 | the registry becomes `Without(old registry, t)`, t is no longer registered, an absent t changes nothing, and logs are untouched |
| Router.Relay.AnswerHandshake | router.ts:46-56 | the handshake answers as `Handshake.HandleVerification` and changes neither the registry nor any log |
| Router.Relay.Dispatch | router.ts:64 | a dispatch succeeds iff the target is not failing, and only then is the event appended to that target's log |
| Router.Relay.DispatchAll | router.ts:63-65 | the loop stops at `FirstFailure` and leaves the logs as `DeliverTo` of the targets before it |
| Router.Relay.Publish | router.ts:58-71 | event topic "events" with the serialized payload; 200 `{isSuccessful: true}` iff no registered target fails, with every registered target getting the event once and no other log changing; otherwise 500, the earlier targets got it, the failing and later ones did not; the registry is unchanged |
| Router.CloseBetweenPublishes | router.ts:36-71 | a target that closes between two publishes receives only the first event; one that stays receives both, in order |
| Router.FailureStopsFanOut | router.ts:58-71 | with three targets and a throwing dispatch to the second, the answer is 500 and only the first target received the event |

## Left out

- The `/` handler and the HTML client page (router.ts:11-34): string templating with no logic.
- Request-body parsing and `JSON.stringify` (router.ts:59-61): the payload enters `Publish` as its already serialized text; a body that fails to parse, which rejects before the `try`, is not modelled.
- The SSE transport (`ctx.sendEvents`, `dispatchEvent`): a target is an abstract id and a dispatch either appends to its log or fails; which dispatches fail is the `failing` parameter of `Publish`.
- The asynchrony of `await value` and of `close` events: connect, close and publish are atomic, sequential operations; no interleaving is modelled.
- Percent-decoding of the query string: `SearchParam` takes the already decoded name/value pairs.
- The body Oak sends with `ctx.throw(500)`: the model records a 500 with no body set by the handler.
- That only a target's own `close` listener deletes it: the model's `Close` accepts any id, which covers that case.
- server.ts: an unrelated stub (a redirect, a hello-world route, an unused array) with no relay logic.
