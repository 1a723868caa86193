/** `check_group`: one task per name runs `check_username`; the completions
    are drained one by one in whatever order the join set yields them. An
    available name adds 1 to the count, an unavailable one is skipped, a task
    that failed to join is reported and skipped, and the first transport
    error ends the whole batch with that error (the `?` on the task's
    answer). */
module Group {
  import opened RustCore
  import opened RustStr
  import opened Probe

  /** Why a spawned task did not deliver its value (it panicked or was
      cancelled). */
  datatype JoinError = JoinError(detail: string)

  /** What the join set yields for one task: the task's `(name, result)`
      pair, or a join failure. */
  datatype Completion =
    | Joined(name: string, available: Result<bool, RequestError>)
    | JoinFailed(cause: JoinError)

  /** How one spawned task ends: it runs `check_username` against the reply
      the network gives, or it never delivers. */
  datatype Fate = Ran(reply: Reply) | Aborted(cause: JoinError)

  /** The completion of the task spawned for `name`. The pair carries the
      name as given, before trimming. */
  function Task(name: string, fate: Fate): (c: Completion)
    ensures c.Joined? <==> fate.Ran?
    ensures c.Joined? ==> c.name == name
    ensures c.JoinFailed? ==> c.cause == fate.cause
    ensures IsTransportFailure(c) <==> fate.Ran? && Admitted(name) && fate.reply.Transport?
  {
    match fate
    case Ran(reply) => Joined(name, CheckUsername(name, reply))
    case Aborted(e) => JoinFailed(e)
  }

  /** The completions of the tasks spawned by the `for name in names` loop,
      one per name, in spawn order. */
  function Spawned(names: seq<string>, fates: seq<Fate>): (cs: seq<Completion>)
    requires |fates| == |names|
    ensures |cs| == |names|
    ensures forall i :: 0 <= i < |names| ==> cs[i] == Task(names[i], fates[i])
  {
    seq(|names|, i requires 0 <= i < |names| => Task(names[i], fates[i]))
  }

  predicate IsAvailable(c: Completion) {
    c.Joined? && c.available == Ok(true)
  }

  predicate IsTransportFailure(c: Completion) {
    c.Joined? && c.available.Err?
  }

  /** The number of completions that report an available name. */
  function CountAvailable(cs: seq<Completion>): (n: nat)
    ensures n <= |cs|
  {
    if cs == [] then 0
    else CountAvailable(cs[..|cs| - 1]) + (if IsAvailable(cs[|cs| - 1]) then 1 else 0)
  }

  /** The position of the first transport failure, or `|cs|` if there is none. */
  function FirstFailure(cs: seq<Completion>): (k: nat)
    ensures k <= |cs|
    ensures k < |cs| ==> IsTransportFailure(cs[k])
    ensures forall j :: 0 <= j < k ==> !IsTransportFailure(cs[j])
  {
    if cs == [] || IsTransportFailure(cs[0]) then 0 else 1 + FirstFailure(cs[1..])
  }

  /** What draining `cs` in this order returns: the error of the first
      transport failure if there is one, otherwise the number of available
      names. */
  function Outcome(cs: seq<Completion>): Result<nat, RequestError> {
    var k := FirstFailure(cs);
    if k < |cs| then Err(cs[k].available.error) else Ok(CountAvailable(cs))
  }

  /** The aggregation loop of `check_group`. `completions` is the order in
      which the join set yields the tasks' ends; it is some permutation of
      one completion per name. `limit` only sizes the join set, so it has no
      bearing on the result. */
  method CheckGroup(names: seq<string>, limit: nat, ghost fates: seq<Fate>, completions: seq<Completion>)
    returns (r: Result<nat, RequestError>)
    requires |fates| == |names|
    requires multiset(completions) == multiset(Spawned(names, fates))
    ensures r == Outcome(completions)
  {
    var availableCount: nat := 0;
    var i := 0;
    while i < |completions|
      invariant 0 <= i <= |completions|
      invariant forall j :: 0 <= j < i ==> !IsTransportFailure(completions[j])
      invariant availableCount == CountAvailable(completions[..i])
    {
      assert completions[..i + 1][..i] == completions[..i];
      match completions[i] {
        case Joined(name, result) =>
          var available :- result;
          if available {
            availableCount := availableCount + 1;
          }
        case JoinFailed(_) =>
      }
      i := i + 1;
    }
    assert completions[..i] == completions;
    r := Ok(availableCount);
  }

  lemma {:induction false} CountAvailableConcat(a: seq<Completion>, b: seq<Completion>)
    ensures CountAvailable(a + b) == CountAvailable(a) + CountAvailable(b)
  {
    if b == [] {
      assert a + b == a;
    } else {
      assert (a + b)[..|a + b| - 1] == a + b[..|b| - 1];
      CountAvailableConcat(a, b[..|b| - 1]);
    }
  }

  /** The count does not depend on the order of the completions. */
  lemma {:induction false} CountAvailablePermutation(a: seq<Completion>, b: seq<Completion>)
    requires multiset(a) == multiset(b)
    ensures CountAvailable(a) == CountAvailable(b)
  {
    if a == [] {
      assert |multiset(b)| == 0;
    } else {
      var x := a[|a| - 1];
      var a' := a[..|a| - 1];
      assert a == a' + [x];
      assert x in multiset(b);
      var j :| 0 <= j < |b| && b[j] == x;
      var b' := b[..j] + b[j + 1..];
      assert b == b[..j] + [x] + b[j + 1..];
      assert multiset(b) == multiset(b[..j]) + multiset{x} + multiset(b[j + 1..]);
      assert multiset(b') == multiset(b[..j]) + multiset(b[j + 1..]);
      assert multiset(a) == multiset(a') + multiset{x};
      assert multiset(a') == multiset(a) - multiset{x};
      assert multiset(b') == multiset(b) - multiset{x};
      CountAvailablePermutation(a', b');
      CountAvailableConcat(b[..j], [x]);
      CountAvailableConcat(b[..j] + [x], b[j + 1..]);
      CountAvailableConcat(b[..j], b[j + 1..]);
    }
  }

  /** The task for `name` reports it available exactly when it ran, the name
      passed the pre-filter and the reply was a 2xx status. */
  lemma TaskAvailable(name: string, fate: Fate)
    ensures IsAvailable(Task(name, fate))
      <==> fate.Ran? && Admitted(name) && fate.reply.Received? && IsSuccess(fate.reply.status)
  {
  }

  /** What `check_group` returns, whatever the completion order: an error
      exactly when some admitted name's request failed in transport, and then
      one of those errors; otherwise the number of names found available,
      which is at most the number of names. */
  lemma {:induction false} GroupOutcome(names: seq<string>, fates: seq<Fate>, cs: seq<Completion>)
    requires |fates| == |names|
    requires multiset(cs) == multiset(Spawned(names, fates))
    ensures Outcome(cs).Err? <==>
      exists i :: 0 <= i < |names| && Admitted(names[i]) && fates[i].Ran? && fates[i].reply.Transport?
    ensures Outcome(cs).Err? ==>
      exists i :: 0 <= i < |names| && Admitted(names[i]) && fates[i] == Ran(Transport(Outcome(cs).error))
    ensures Outcome(cs).Ok? ==>
      Outcome(cs).value == CountAvailable(Spawned(names, fates)) && Outcome(cs).value <= |names|
  {
    var spawned := Spawned(names, fates);
    var k := FirstFailure(cs);
    if k < |cs| {
      assert cs[k] in multiset(spawned);
      var i :| 0 <= i < |spawned| && spawned[i] == cs[k];
      assert Task(names[i], fates[i]) == cs[k];
      assert Admitted(names[i]) && fates[i] == Ran(Transport(Outcome(cs).error));
    } else {
      forall i | 0 <= i < |names| && Admitted(names[i]) && fates[i].Ran?
        ensures !fates[i].reply.Transport?
      {
        assert spawned[i] in multiset(cs);
        var j :| 0 <= j < |cs| && cs[j] == spawned[i];
        assert !IsTransportFailure(cs[j]);
      }
      CountAvailablePermutation(cs, spawned);
    }
  }

  /** No names, no tasks, no completions: the count is 0. */
  lemma EmptyGroup(cs: seq<Completion>)
    requires multiset(cs) == multiset(Spawned([], []))
    ensures cs == [] && Outcome(cs) == Ok(0)
  {
  }

  /** The first transport failure decides the result: the count gathered so
      far is discarded and nothing after it is looked at. */
  lemma StopsAtFirstFailure(before: seq<Completion>, c: Completion, after: seq<Completion>)
    requires forall j :: 0 <= j < |before| ==> !IsTransportFailure(before[j])
    requires IsTransportFailure(c)
    ensures Outcome(before + [c] + after) == Err(c.available.error)
  {
    var cs := before + [c] + after;
    assert cs[|before|] == c;
    assert forall j :: 0 <= j < |before| ==> cs[j] == before[j];
  }

  /** A join failure, and an unavailable name, leave both the count and the
      draining of later completions untouched. */
  lemma {:induction false} SkippedCompletion(before: seq<Completion>, c: Completion, after: seq<Completion>)
    requires c.JoinFailed? || c.available == Ok(false)
    ensures Outcome(before + [c] + after) == Outcome(before + after)
  {
    var cs, ds := before + [c] + after, before + after;
    var k, l := FirstFailure(cs), FirstFailure(ds);
    assert forall j :: 0 <= j < |before| ==> cs[j] == ds[j] == before[j];
    assert forall j :: |before| < j < |cs| ==> cs[j] == ds[j - 1] == after[j - |before| - 1];
    assert !IsTransportFailure(cs[|before|]);
    if l < |before| {
      assert k == l;
    } else if l < |ds| {
      assert cs[l + 1] == ds[l];
      assert k == l + 1;
    } else {
      assert k == |cs|;
      CountAvailableConcat(before + [c], after);
      CountAvailableConcat(before, [c]);
      CountAvailableConcat(before, after);
    }
  }

  /** Each available name raises the count by exactly one. */
  lemma AvailableAddsOne(cs: seq<Completion>, name: string, n: nat)
    requires Outcome(cs) == Ok(n)
    ensures Outcome(cs + [Joined(name, Ok(true))]) == Ok(n + 1)
  {
  }

  /** A name of ASCII text that does not start or end with whitespace, like
      every name of the two scenarios below. */
  predicate PlainName(name: string) {
    IsAscii(name) && name != [] && !IsWhitespace(name[0]) && !IsWhitespace(name[|name| - 1])
  }

  /** A plain name is its own trim, so the pre-filter checks its character
      count. */
  lemma PlainNameAdmitted(name: string)
    requires PlainName(name)
    ensures Admitted(name) <==> MinNameLen <= |name| <= MaxNameLen
  {
    assert LeadingWhitespace(name) == 0;
    assert TrailingWhitespace(name) == 0;
    assert Trim(name) == name;
    AsciiByteLen(name);
  }

  /** Names of 2, 9, 15 and 20 characters ("ab", "validname",
      "another_ok_name" and twenty x's), where only the 9-character name is
      answered with a 2xx status: the 2- and 20-character names are never
      sent, so even a transport failure "for" them changes nothing, and in
      every completion order the count is 1. */
  lemma ScenarioCountsOne(names: seq<string>, reply0: Reply, ok: StatusCode, other: StatusCode,
                          reply3: Reply, cs: seq<Completion>)
    requires |names| == 4 && forall i :: 0 <= i < 4 ==> PlainName(names[i])
    requires |names[0]| == 2 && |names[1]| == 9 && |names[2]| == 15 && |names[3]| == 20
    requires IsSuccess(ok) && !IsSuccess(other)
    requires multiset(cs) == multiset(Spawned(names,
      [Ran(reply0), Ran(Received(ok)), Ran(Received(other)), Ran(reply3)]))
    ensures Outcome(cs) == Ok(1)
  {
    var fates := [Ran(reply0), Ran(Received(ok)), Ran(Received(other)), Ran(reply3)];
    PlainNameAdmitted(names[0]);
    PlainNameAdmitted(names[1]);
    PlainNameAdmitted(names[2]);
    PlainNameAdmitted(names[3]);
    var spawned := Spawned(names, fates);
    assert spawned == [Joined(names[0], Ok(false)), Joined(names[1], Ok(true)),
                       Joined(names[2], Ok(false)), Joined(names[3], Ok(false))];
    assert CountAvailable(spawned) == 1 by {
      assert spawned[..1][..0] == [];
      assert spawned[..2][..1] == spawned[..1];
      assert spawned[..3][..2] == spawned[..2];
      assert spawned[..3] == spawned[..|spawned| - 1];
      assert CountAvailable(spawned[..1]) == 0;
      assert CountAvailable(spawned[..2]) == 1;
      assert CountAvailable(spawned[..3]) == 1;
    }
    GroupOutcome(names, fates, cs);
  }

  /** The code lets one transport error discard everything: when one name
      is available and the request for the other fails in transport, the
      batch ends in that error, in either completion order. */
  lemma TransportErrorAbortsBatch(names: seq<string>, ok: StatusCode, e: RequestError, cs: seq<Completion>)
    requires |names| == 2 && PlainName(names[0]) && PlainName(names[1])
    requires |names[0]| == 9 && |names[1]| == 9
    requires IsSuccess(ok)
    requires multiset(cs) == multiset(Spawned(names, [Ran(Received(ok)), Ran(Transport(e))]))
    ensures Outcome(cs) == Err(e)
  {
    var fates := [Ran(Received(ok)), Ran(Transport(e))];
    PlainNameAdmitted(names[0]);
    PlainNameAdmitted(names[1]);
    GroupOutcome(names, fates, cs);
    var i :| 0 <= i < |names| && Admitted(names[i]) && fates[i] == Ran(Transport(Outcome(cs).error));
    assert i == 1;
  }
}
