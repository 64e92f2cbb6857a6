/**
 * `clientTargets`, a JavaScript `Set` of stream targets, seen as the
 * sequence of its members in iteration (insertion) order. Targets are
 * abstract ids.
 */
module Registry {
  type TargetId = nat

  /** A `Set` holds each member once. */
  ghost predicate NoDuplicates(s: seq<TargetId>) {
    forall i, j :: 0 <= i < j < |s| ==> s[i] != s[j]
  }

  /** `Set.prototype.delete`: the members other than `t`, in their old order. */
  function Without(s: seq<TargetId>, t: TargetId): (r: seq<TargetId>)
    ensures forall x :: x in r <==> x in s && x != t
    ensures |r| <= |s|
  {
    if s == [] then []
    else if s[0] == t then Without(s[1..], t)
    else [s[0]] + Without(s[1..], t)
  }

  /** Deleting a member that is absent changes nothing. */
  lemma {:induction false} WithoutAbsent(s: seq<TargetId>, t: TargetId)
    requires t !in s
    ensures Without(s, t) == s
  {
    if s != [] {
      WithoutAbsent(s[1..], t);
    }
  }

  /** Deleting twice is deleting once. */
  lemma WithoutIdempotent(s: seq<TargetId>, t: TargetId)
    ensures Without(Without(s, t), t) == Without(s, t)
  {
    WithoutAbsent(Without(s, t), t);
  }

  /**
   * Deleting a member of a duplicate-free sequence cuts out exactly its one
   * position and keeps every other member in place.
   */
  lemma {:induction false} WithoutAt(s: seq<TargetId>, i: nat)
    requires NoDuplicates(s)
    requires i < |s|
    ensures Without(s, s[i]) == s[..i] + s[i + 1..]
  {
    if i == 0 {
      assert s[0] !in s[1..];
      WithoutAbsent(s[1..], s[0]);
    } else {
      assert NoDuplicates(s[1..]);
      assert s[1..][i - 1] == s[i];
      WithoutAt(s[1..], i - 1);
      assert s[1..][..i - 1] + s[1..][i..] == s[1..i] + s[i + 1..];
      assert s[..i] + s[i + 1..] == [s[0]] + (s[1..i] + s[i + 1..]);
    }
  }

  /** Deleting keeps the members distinct. */
  lemma {:induction false} WithoutNoDuplicates(s: seq<TargetId>, t: TargetId)
    requires NoDuplicates(s)
    ensures NoDuplicates(Without(s, t))
  {
    if s != [] {
      assert NoDuplicates(s[1..]);
      WithoutNoDuplicates(s[1..], t);
      assert s[0] !in s[1..];
    }
  }

  /** A registered target that then closes leaves the registry as it found it. */
  lemma {:induction false} AddThenDelete(s: seq<TargetId>, t: TargetId)
    requires t !in s
    ensures Without(s + [t], t) == s
  {
    if s == [] {
      assert [] + [t] == [t];
    } else {
      assert (s + [t])[1..] == s[1..] + [t];
      AddThenDelete(s[1..], t);
    }
  }
}
