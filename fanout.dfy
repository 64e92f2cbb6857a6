/**
 * What one publish does to the targets' delivery logs: the event is
 * dispatched to the targets in iteration order, and the first dispatch
 * that throws ends the loop.
 */
module FanOut {
  import opened Registry

  const EventsTopic: string := "events"

  /** A server-sent event: its topic and its `data` text. */
  datatype Event = Event(topic: string, data: string)

  type Logs = map<TargetId, seq<Event>>

  /** The logs after `e` has been dispatched to each of `ts` in turn. */
  function DeliverTo(logs: Logs, ts: seq<TargetId>, e: Event): (r: Logs)
    ensures r.Keys == logs.Keys
    decreases |ts|
  {
    if ts == [] then logs
    else
      var m := DeliverTo(logs, ts[..|ts| - 1], e);
      var t := ts[|ts| - 1];
      if t in m then m[t := m[t] + [e]] else m
  }

  /**
   * The position of the first target whose dispatch fails, or `|ts|` when
   * every dispatch succeeds.
   */
  function FirstFailure(ts: seq<TargetId>, failing: set<TargetId>): (k: nat)
    ensures k <= |ts|
    ensures forall j :: 0 <= j < k ==> ts[j] !in failing
    ensures k < |ts| ==> ts[k] in failing
    ensures k == |ts| <==> forall t :: t in ts ==> t !in failing
  {
    if ts == [] then 0
    else if ts[0] in failing then 0
    else
      var k := 1 + FirstFailure(ts[1..], failing);
      assert forall j :: 1 <= j < |ts| ==> ts[j] == ts[1..][j - 1];
      k
  }

  /**
   * Over distinct targets, every listed target that has a log receives `e`
   * exactly once, appended at the end, and every other log is untouched.
   */
  lemma {:induction false} DeliverToAt(logs: Logs, ts: seq<TargetId>, e: Event)
    requires NoDuplicates(ts)
    ensures forall t :: t in logs ==>
      DeliverTo(logs, ts, e)[t] == if t in ts then logs[t] + [e] else logs[t]
    decreases |ts|
  {
    if ts != [] {
      var front := ts[..|ts| - 1];
      assert NoDuplicates(front);
      DeliverToAt(logs, front, e);
      assert ts[|ts| - 1] !in front;
      assert forall t :: t in ts <==> t in front || t == ts[|ts| - 1];
    }
  }

  /** The first failure is the position whose predecessors all succeed and which itself fails. */
  lemma FirstFailureAt(ts: seq<TargetId>, failing: set<TargetId>, i: nat)
    requires i <= |ts|
    requires forall j :: 0 <= j < i ==> ts[j] !in failing
    requires i < |ts| ==> ts[i] in failing
    ensures FirstFailure(ts, failing) == i
  {
  }

  /**
   * Delivering to the first `k` of distinct targets reaches positions below
   * `k` once and leaves the other positions, and all unlisted targets, alone.
   */
  lemma PrefixDelivery(logs: Logs, ts: seq<TargetId>, k: nat, e: Event)
    requires NoDuplicates(ts)
    requires k <= |ts|
    requires forall t :: t in ts ==> t in logs
    ensures forall j :: 0 <= j < |ts| ==>
      DeliverTo(logs, ts[..k], e)[ts[j]] == if j < k then logs[ts[j]] + [e] else logs[ts[j]]
    ensures forall t :: t in logs && t !in ts ==> DeliverTo(logs, ts[..k], e)[t] == logs[t]
  {
    assert NoDuplicates(ts[..k]);
    DeliverToAt(logs, ts[..k], e);
    forall j | 0 <= j < |ts|
      ensures ts[j] in ts[..k] <==> j < k
    {
      if ts[j] in ts[..k] {
        var i :| 0 <= i < k && ts[..k][i] == ts[j];
        assert ts[i] == ts[j];
      }
      if j < k {
        assert ts[..k][j] == ts[j];
      }
    }
  }

  /**
   * What one publish leaves in the logs. When no dispatch fails, every
   * listed target has received `e` once and no other log changed. When the
   * dispatch at position `k` fails, the targets before it have received `e`,
   * it and the ones after it have not, and no unlisted log changed.
   */
  lemma FanOutOutcome(logs: Logs, ts: seq<TargetId>, failing: set<TargetId>, e: Event)
    requires NoDuplicates(ts)
    requires forall t :: t in ts ==> t in logs
    ensures var k := FirstFailure(ts, failing);
      var r := DeliverTo(logs, ts[..k], e);
      && (k == |ts| ==> forall t :: t in logs ==> r[t] == if t in ts then logs[t] + [e] else logs[t])
      && (k < |ts| ==>
            && (forall j :: 0 <= j < |ts| ==> r[ts[j]] == if j < k then logs[ts[j]] + [e] else logs[ts[j]])
            && (forall t :: t in logs && t !in ts ==> r[t] == logs[t]))
  {
    var k := FirstFailure(ts, failing);
    if k == |ts| {
      assert ts[..k] == ts;
      DeliverToAt(logs, ts, e);
    } else {
      PrefixDelivery(logs, ts, k, e);
    }
  }
}
