// Running the compile-time blocks of one source session: each block is found,
// admitted and executed on the outputs of the blocks before it.

module SourceBlocks {
  import opened Prelude

  const BLOCK_LIMIT: nat := 256

  // What a session offers: the site of the next block after some outputs, and
  // the output of running the block there.
  datatype Session<!B> = Session(
    nextSite: seq<B> -> Result<Option<nat>, string>,
    runBlock: (nat, seq<B>) -> Result<B, string>)

  datatype Failure = LimitExceeded | Reported(message: string)

  // Each output is the one its block yields after the outputs before it.
  ghost predicate Executed<B>(session: Session<B>, outputs: seq<B>) {
    forall i :: 0 <= i < |outputs| ==>
      && session.nextSite(outputs[..i]).Ok?
      && session.nextSite(outputs[..i]).value.Some?
      && session.runBlock(session.nextSite(outputs[..i]).value.value, outputs[..i]) == Ok(outputs[i])
  }

  lemma ExecutedOneMore<B>(session: Session<B>, outputs: seq<B>, site: nat, output: B)
    requires Executed(session, outputs)
    requires session.nextSite(outputs) == Ok(Some(site)) && session.runBlock(site, outputs) == Ok(output)
    ensures Executed(session, outputs + [output])
  {
    var longer := outputs + [output];
    forall i | 0 <= i < |longer|
      ensures session.nextSite(longer[..i]).Ok? && session.nextSite(longer[..i]).value.Some?
      ensures session.runBlock(session.nextSite(longer[..i]).value.value, longer[..i]) == Ok(longer[i])
    {
      assert longer[..i] == if i < |outputs| then outputs[..i] else outputs;
    }
  }

  // Two executions agree as far as both go.
  lemma {:induction false} ExecutedIsDeterministic<B>(session: Session<B>, a: seq<B>, b: seq<B>, k: nat)
    requires Executed(session, a) && Executed(session, b)
    requires k <= |a| && k <= |b|
    ensures a[..k] == b[..k]
  {
    if k > 0 {
      ExecutedIsDeterministic(session, a, b, k - 1);
      assert a[..k] == a[..k - 1] + [a[k - 1]] && b[..k] == b[..k - 1] + [b[k - 1]];
      assert session.runBlock(session.nextSite(a[..k - 1]).value.value, a[..k - 1]) == Ok(a[k - 1]);
    }
  }

  // A complete execution is where the session has no further block.
  ghost predicate Complete<B>(session: Session<B>, outputs: seq<B>) {
    Executed(session, outputs) && session.nextSite(outputs) == Ok(None)
  }

  // There is at most one complete execution.
  lemma CompleteIsUnique<B>(session: Session<B>, a: seq<B>, b: seq<B>)
    requires Complete(session, a) && Complete(session, b)
    ensures a == b
  {
    var k := if |a| <= |b| then |a| else |b|;
    ExecutedIsDeterministic(session, a, b, k);
    assert a[..|a|] == a && b[..|b|] == b;
  }

  // How an execution ends: complete, at a block that cannot be found or run, or
  // at the limit.
  ghost predicate Ends<B>(session: Session<B>, outputs: seq<B>, r: Result<seq<B>, Failure>) {
    && Executed(session, outputs)
    && |outputs| <= BLOCK_LIMIT
    && match session.nextSite(outputs)
       case Err(message) => r == Err(Reported(message))
       case Ok(None) => r == Ok(outputs)
       case Ok(Some(site)) =>
         if |outputs| == BLOCK_LIMIT then r == Err(LimitExceeded)
         else
           var output := session.runBlock(site, outputs);
           output.Err? && r == Err(Reported(output.error))
  }

  lemma EndIsNotPassed<B>(session: Session<B>, a: seq<B>, ra: Result<seq<B>, Failure>, b: seq<B>)
    requires Ends(session, a, ra) && Executed(session, b) && |b| <= BLOCK_LIMIT
    ensures |b| <= |a|
  {
    assert a[..|a|] == a;
    if |a| < |b| {
      assert session.runBlock(session.nextSite(b[..|a|]).value.value, b[..|a|]) == Ok(b[|a|]);
      ExecutedIsDeterministic(session, a, b, |a|);
    }
  }

  // An execution ends in one way only.
  lemma EndIsUnique<B>(
      session: Session<B>, a: seq<B>, ra: Result<seq<B>, Failure>, b: seq<B>, rb: Result<seq<B>, Failure>)
    requires Ends(session, a, ra) && Ends(session, b, rb)
    ensures ra == rb
  {
    EndIsNotPassed(session, a, ra, b);
    EndIsNotPassed(session, b, rb, a);
    ExecutedIsDeterministic(session, a, b, |a|);
    assert a[..|a|] == a && b[..|a|] == b;
  }

  // The execution has come to the limit with a block left to run.
  ghost predicate AtLimit<B>(session: Session<B>, outputs: seq<B>) {
    && Executed(session, outputs) && |outputs| == BLOCK_LIMIT
    && session.nextSite(outputs).Ok? && session.nextSite(outputs).value.Some?
  }

  // The execution has come to a block that cannot be found or run.
  ghost predicate FailsWith<B>(session: Session<B>, outputs: seq<B>, message: string) {
    && Executed(session, outputs) && |outputs| <= BLOCK_LIMIT
    && match session.nextSite(outputs)
       case Err(m) => m == message
       case Ok(None) => false
       case Ok(Some(site)) => |outputs| < BLOCK_LIMIT && session.runBlock(site, outputs) == Err(message)
  }

  ghost predicate Outcome<B(!new)>(session: Session<B>, r: Result<seq<B>, Failure>) {
    exists outputs :: Ends(session, outputs, r)
  }

  lemma EndIsOutcome<B(!new)>(session: Session<B>, outputs: seq<B>, r: Result<seq<B>, Failure>)
    requires Ends(session, outputs, r)
    ensures forall other :: Outcome(session, other) <==> other == r
    ensures r == Err(LimitExceeded) <==> exists outputs :: AtLimit(session, outputs)
    ensures forall message :: r == Err(Reported(message)) <==> exists outputs :: FailsWith(session, outputs, message)
  {
    assert r == Err(LimitExceeded) ==> AtLimit(session, outputs);
    forall other | AtLimit(session, other) ensures r == Err(LimitExceeded) {
      EndIsUnique(session, outputs, r, other, Err(LimitExceeded));
    }
    forall other, message | FailsWith(session, other, message) ensures r == Err(Reported(message)) {
      EndIsUnique(session, outputs, r, other, Err(Reported(message)));
    }
    forall message | r == Err(Reported(message)) ensures FailsWith(session, outputs, message) {
    }
    forall other ensures Outcome(session, other) <==> other == r {
      if Outcome(session, other) {
        var outputs' :| Ends(session, outputs', other);
        EndIsUnique(session, outputs, r, outputs', other);
      }
    }
  }

  // The session is executed to its end exactly when that takes at most 256
  // blocks and nothing fails on the way; a reported failure is that of the block
  // at which the execution ends.
  method ExecuteBlocks<B(!new)>(session: Session<B>) returns (r: Result<seq<B>, Failure>)
    ensures forall other :: Outcome(session, other) <==> other == r
    ensures r.Ok? ==> Complete(session, r.value) && |r.value| <= BLOCK_LIMIT
    ensures r.Err? ==> forall outputs :: Complete(session, outputs) ==> |outputs| > BLOCK_LIMIT
    ensures r == Err(LimitExceeded) <==> exists outputs :: AtLimit(session, outputs)
    ensures forall message :: r == Err(Reported(message)) <==> exists outputs :: FailsWith(session, outputs, message)
  {
    var prior: seq<B> := [];
    while true
      invariant |prior| <= BLOCK_LIMIT
      invariant Executed(session, prior)
      decreases BLOCK_LIMIT - |prior|
    {
      var next := session.nextSite(prior);
      if next.Err? {
        StuckIsIncomplete(session, prior);
        EndIsOutcome(session, prior, Err(Reported(next.error)));
        return Err(Reported(next.error));
      }
      if next.value.None? {
        EndIsOutcome(session, prior, Ok(prior));
        return Ok(prior);
      }
      if |prior| >= BLOCK_LIMIT {
        LongerThan(session, prior);
        EndIsOutcome(session, prior, Err(LimitExceeded));
        return Err(LimitExceeded);
      }
      var output := session.runBlock(next.value.value, prior);
      if output.Err? {
        StuckIsIncomplete(session, prior);
        EndIsOutcome(session, prior, Err(Reported(output.error)));
        return Err(Reported(output.error));
      }
      ExecutedOneMore(session, prior, next.value.value, output.value);
      prior := prior + [output.value];
    }
  }

  // An execution that has a next block is shorter than any complete one.
  lemma LongerThan<B(!new)>(session: Session<B>, prior: seq<B>)
    requires Executed(session, prior) && session.nextSite(prior) != Ok(None)
    ensures forall outputs :: Complete(session, outputs) ==> |outputs| > |prior| && outputs[..|prior|] == prior
  {
    forall outputs | Complete(session, outputs) ensures |outputs| > |prior| && outputs[..|prior|] == prior {
      assert prior[..|prior|] == prior && outputs[..|outputs|] == outputs;
      if |outputs| <= |prior| {
        ExecutedIsDeterministic(session, prior, outputs, |outputs|);
      } else {
        ExecutedIsDeterministic(session, prior, outputs, |prior|);
      }
    }
  }

  // Where the next block cannot be found or run, there is no complete execution.
  lemma StuckIsIncomplete<B(!new)>(session: Session<B>, prior: seq<B>)
    requires Executed(session, prior)
    requires session.nextSite(prior).Err? ||
      (session.nextSite(prior).value.Some? && session.runBlock(session.nextSite(prior).value.value, prior).Err?)
    ensures forall outputs :: !Complete(session, outputs)
  {
    LongerThan(session, prior);
    forall outputs ensures !Complete(session, outputs) {
      assert !(Executed(session, outputs) && |outputs| > |prior| && outputs[..|prior|] == prior);
    }
  }
}
