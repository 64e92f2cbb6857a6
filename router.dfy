/**
 * The relay state of the router: the `clientTargets` registry and, for every
 * target ever opened, the events it has been sent. Its methods are the
 * handlers of the stream endpoint (connect), the target's close listener,
 * the handshake endpoint and the publish endpoint.
 */
module Router {
  import opened Wrappers
  import opened Http
  import opened Registry
  import opened FanOut
  import Handshake

  class Relay {
    /** `clientTargets`, in iteration order. */
    var targets: seq<TargetId>
    /** The events each target opened so far has been sent. */
    var logs: Logs
    /** Larger than every id handed out so far: the next target's id. */
    var nextId: TargetId

    ghost predicate Valid()
      reads this
    {
      && NoDuplicates(targets)
      && (forall t: TargetId :: t in targets ==> t in logs)
      && (forall t: TargetId :: t in logs ==> t < nextId)
    }

    constructor ()
      ensures Valid()
      ensures targets == [] && logs == map[]
    {
      targets := [];
      logs := map[];
      nextId := 0;
      new;
      assert forall t :: t !in logs;
    }

    /**
     * `GET /sse`: opens a new target and adds it to the registry. The new
     * target is distinct from every target opened before and starts with an
     * empty log; the other targets and their logs are unchanged.
     */
    method Connect() returns (t: TargetId)
      requires Valid()
      modifies this
      ensures Valid()
      ensures t !in old(logs) && t !in old(targets)
      ensures targets == old(targets) + [t]
      ensures logs == old(logs)[t := []]
    {
      t := nextId;
      assert t !in targets;
      nextId := nextId + 1;
      targets := targets + [t];
      logs := logs[t := []];
    }

    /**
     * The target's `close` listener: deletes `t` from the registry. The
     * logs stay as they are; deleting an absent target is a no-op.
     */
    method Close(t: TargetId)
      requires Valid()
      modifies this`targets
      ensures Valid()
      ensures targets == Without(old(targets), t)
      ensures t !in targets
      ensures old(t !in targets) ==> targets == old(targets)
    {
      WithoutNoDuplicates(targets, t);
      if t !in targets {
        WithoutAbsent(targets, t);
      }
      targets := Without(targets, t);
    }

    /** `GET EVENTS_ENDPOINT`: the handshake, which reads and changes no relay state. */
    method AnswerHandshake(query: seq<(string, string)>) returns (resp: Response)
      ensures unchanged(this)
      ensures resp == Handshake.HandleVerification(query)
    {
      resp := Handshake.HandleVerification(query);
    }

    /**
     * `target.dispatchEvent(event)`, with the throw made explicit: the
     * dispatch succeeds unless `t` is in `failing`, and only on success is
     * `e` appended to `t`'s log.
     */
    method Dispatch(t: TargetId, e: Event, failing: set<TargetId>) returns (ok: bool)
      requires t in logs
      modifies this`logs
      ensures ok <==> t !in failing
      ensures logs == if ok then old(logs)[t := old(logs)[t] + [e]] else old(logs)
    {
      ok := t !in failing;
      if ok {
        logs := logs[t := logs[t] + [e]];
      }
    }

    /**
     * The `for ... of clientTargets` loop: dispatches `e` to the registered
     * targets in order and stops at the first dispatch that fails. It
     * returns how many dispatches succeeded before that, and leaves the
     * logs as `DeliverTo` says.
     */
    method DispatchAll(e: Event, failing: set<TargetId>) returns (k: nat)
      requires Valid()
      modifies this`logs
      ensures logs.Keys == old(logs).Keys
      ensures k == FirstFailure(targets, failing)
      ensures logs == DeliverTo(old(logs), targets[..k], e)
    {
      k := 0;
      while k < |targets|
        invariant k <= |targets|
        invariant forall j :: 0 <= j < k ==> targets[j] !in failing
        invariant logs == DeliverTo(old(logs), targets[..k], e)
        invariant logs.Keys == old(logs).Keys
      {
        var ok := Dispatch(targets[k], e, failing);
        if !ok {
          break;
        }
        assert targets[..k + 1][..k] == targets[..k];
        k := k + 1;
      }
      FirstFailureAt(targets, failing, k);
    }

    /**
     * `POST EVENTS_ENDPOINT`: builds the event with topic "events" and the
     * serialized payload as data, dispatches it to the registered targets
     * in order and answers 200 `{ isSuccessful: true }`, or 500 as soon as
     * one dispatch fails. `failing` stands for the targets whose dispatch
     * throws.
     */
    method Publish(serialized: string, failing: set<TargetId>) returns (resp: Response)
      requires Valid()
      modifies this`logs
      ensures Valid()
      ensures targets == old(targets)
      ensures var k := FirstFailure(targets, failing);
        && logs == DeliverTo(old(logs), targets[..k], Event(EventsTopic, serialized))
        && resp == if k == |targets| then Response(200, Outcome(true)) else Response(500, Unset)
      // All dispatches succeed: each registered target got the event once, nobody else did.
      ensures resp.status == 200 <==> forall t :: t in targets ==> t !in failing
      ensures resp.status == 200 ==>
        forall t :: t in logs ==>
          logs[t] == if t in targets then old(logs)[t] + [Event(EventsTopic, serialized)] else old(logs)[t]
      // A dispatch fails: the targets before it got the event, it and the later ones did not.
      ensures resp.status != 200 ==>
        var k := FirstFailure(targets, failing);
        && resp.status == 500 && k < |targets| && targets[k] in failing
        && (forall j :: 0 <= j < |targets| ==>
              logs[targets[j]] == if j < k then old(logs)[targets[j]] + [Event(EventsTopic, serialized)]
                                  else old(logs)[targets[j]])
        && (forall t :: t in logs && t !in targets ==> logs[t] == old(logs)[t])
    {
      var e := Event(EventsTopic, serialized);
      var k := DispatchAll(e, failing);
      if k == |targets| {
        resp := Response(200, Outcome(true));
      } else {
        resp := Response(500, Unset);
      }
      FanOutOutcome(old(logs), targets, failing, e);
    }
  }

  /** Two targets connect; the first closes between two publishes. */
  method CloseBetweenPublishes(p1: string, p2: string)
    returns (first: seq<Event>, second: seq<Event>, r1: Response, r2: Response)
    ensures r1 == r2 == Response(200, Outcome(true))
    ensures first == [Event("events", p1)]
    ensures second == [Event("events", p1), Event("events", p2)]
  {
    var relay := new Relay();
    var a := relay.Connect();
    var b := relay.Connect();
    r1 := relay.Publish(p1, {});
    relay.Close(a);
    r2 := relay.Publish(p2, {});
    first, second := relay.logs[a], relay.logs[b];
  }

  /** Three targets; the dispatch to the second throws. */
  method FailureStopsFanOut(p: string) returns (logs: seq<seq<Event>>, r: Response)
    ensures r == Response(500, Unset)
    ensures logs == [[Event("events", p)], [], []]
  {
    var relay := new Relay();
    var a := relay.Connect();
    var b := relay.Connect();
    var c := relay.Connect();
    assert relay.targets == [a, b, c] && a != b;
    assert relay.logs[a] == relay.logs[b] == relay.logs[c] == [];
    assert FirstFailure([a, b, c], {b}) == 1;
    r := relay.Publish(p, {b});
    assert relay.targets[0] == a && relay.targets[1] == b && relay.targets[2] == c;
    assert r.status != 200;
    assert relay.logs[a] == [Event(EventsTopic, p)];
    assert relay.logs[b] == [];
    assert relay.logs[c] == [];
    logs := [relay.logs[a], relay.logs[b], relay.logs[c]];
  }
}
