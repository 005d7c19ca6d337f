// The fixture session store: numbered live sessions and a wrapping counter from
// which the next identifier is probed. Identifiers are non-zero u32 values.

module SessionStore {
  import opened Prelude

  const MAX_ID: nat := 0xFFFF_FFFF

  type Counter = n: nat | n <= MAX_ID

  // ---------- allocation ----------

  function Candidate(next: Counter): (c: nat)
    ensures 1 <= c <= MAX_ID
  {
    if next < 1 then 1 else next
  }

  function After(candidate: nat): Counter
    requires 1 <= candidate <= MAX_ID
  {
    if candidate == MAX_ID then 1 else candidate + 1
  }

  // Probe up to `tries` identifiers: the first free one, if any, and the
  // counter afterwards.
  function Allocation(live: set<nat>, next: Counter, tries: nat): (r: (Option<nat>, Counter))
    decreases tries
  {
    if tries == 0 then (None, next)
    else
      var candidate := Candidate(next);
      if candidate !in live then (Some(candidate), After(candidate))
      else Allocation(live, After(candidate), tries - 1)
  }

  // The identifier probed after i others, wrapping around past the last one.
  function Nth(next: Counter, i: nat): (c: nat)
    requires i < MAX_ID
    ensures 1 <= c <= MAX_ID
  {
    var c := Candidate(next) + i;
    if c <= MAX_ID then c else c - MAX_ID
  }

  // Allocation returns the first free identifier in probing order and leaves
  // the counter after the last identifier probed.
  lemma {:induction false} AllocationIsFirstFree(live: set<nat>, next: Counter, tries: nat)
    requires tries <= MAX_ID
    ensures var r := Allocation(live, next, tries).0;
      if r.Some? then
        exists i :: 0 <= i < tries && r.value == Nth(next, i) && r.value !in live
          && forall j :: 0 <= j < i ==> Nth(next, j) in live
      else forall j :: 0 <= j < tries ==> Nth(next, j) in live
    ensures var (r, next') := Allocation(live, next, tries);
      && (r.Some? ==> next' == if r.value == MAX_ID then 1 else r.value + 1)
      && (r.None? && tries > 0 ==>
            next' == if Nth(next, tries - 1) == MAX_ID then 1 else Nth(next, tries - 1) + 1)
      && (tries == 0 ==> next' == next)
    decreases tries
  {
    if tries > 0 {
      var candidate := Candidate(next);
      assert Nth(next, 0) == candidate;
      if candidate in live {
        var next', r := After(candidate), Allocation(live, next, tries).0;
        AllocationIsFirstFree(live, next', tries - 1);
        assert forall j :: 0 <= j < tries - 1 ==> Nth(next', j) == Nth(next, j + 1);
        assert r == Allocation(live, next', tries - 1).0;
        if r.Some? {
          var i :| 0 <= i < tries - 1 && r.value == Nth(next', i) && r.value !in live
            && forall j :: 0 <= j < i ==> Nth(next', j) in live;
          assert r.value == Nth(next, i + 1);
          forall j | 0 <= j < i + 1 ensures Nth(next, j) in live {
            if j > 0 { assert Nth(next, j) == Nth(next', j - 1); }
          }
        } else {
          forall j | 0 <= j < tries ensures Nth(next, j) in live {
            if j > 0 { assert Nth(next, j) == Nth(next', j - 1); }
          }
        }
      }
    }
  }

  ghost predicate ValidIds(live: set<nat>) {
    forall id :: id in live ==> 1 <= id <= MAX_ID
  }

  function Probes(next: Counter, n: nat): (s: seq<nat>)
    requires n <= MAX_ID
    ensures |s| == n && forall i :: 0 <= i < n ==> s[i] == Nth(next, i)
  {
    seq(n, i requires 0 <= i < n => Nth(next, i))
  }

  lemma {:induction false} IdSpace(n: nat) returns (ids: set<nat>)
    ensures |ids| == n && forall id :: id in ids <==> 1 <= id <= n
  {
    if n == 0 {
      ids := {};
    } else {
      var fewer := IdSpace(n - 1);
      ids := fewer + {n};
    }
  }

  lemma LiveAtMostAll(live: set<nat>)
    requires ValidIds(live)
    ensures |live| <= MAX_ID
    ensures |live| == MAX_ID ==> forall id :: 1 <= id <= MAX_ID ==> id in live
  {
    var ids := IdSpace(MAX_ID);
    assert live <= ids;
    SubsetCardinality(live, ids);
  }

  // With one probe more than there are live sessions, allocation fails exactly
  // when every identifier is live, wherever the counter stands.
  lemma AllocationFailsIff(live: set<nat>, next: Counter)
    requires ValidIds(live)
    ensures Allocation(live, next, |live| + 1).0.None? <==> |live| == MAX_ID
    ensures var r := Allocation(live, next, |live| + 1).0; r.Some? ==> r.value !in live && 1 <= r.value <= MAX_ID
  {
    LiveAtMostAll(live);
    if |live| == MAX_ID {
      AllLiveFails(live, next, |live| + 1);
    } else {
      AllocationIsFirstFree(live, next, |live| + 1);
      if Allocation(live, next, |live| + 1).0.None? {
        var probes := Probes(next, |live| + 1);
        assert Elements(probes) <= live;
        var i, j := Pigeonhole(probes, live);
        assert false;
      }
    }
  }

  lemma {:induction false} AllLiveFails(live: set<nat>, next: Counter, tries: nat)
    requires forall id :: 1 <= id <= MAX_ID ==> id in live
    ensures Allocation(live, next, tries).0.None?
    decreases tries
  {
    if tries > 0 {
      AllLiveFails(live, After(Candidate(next)), tries - 1);
    }
  }

  // ---------- the store ----------

  class FixtureSessionStore<Host> {
    var sessions: map<nat, Host>
    var nextSession: Counter

    ghost predicate Valid()
      reads this
    {
      ValidIds(sessions.Keys)
    }

    ghost function Abstract(): State
      reads this
    {
      State(sessions.Keys, nextSession)
    }

    constructor ()
      ensures Valid() && sessions == map[] && nextSession == 0
      ensures Abstract() == Run([]).0
    {
      sessions, nextSession := map[], 0;
    }

    method AllocateSession() returns (id: Option<nat>)
      requires Valid()
      modifies this`nextSession
      ensures (id, nextSession) == Allocation(sessions.Keys, old(nextSession), |sessions| + 1)
      ensures id.None? <==> |sessions| == MAX_ID
      ensures id.Some? ==> id.value !in sessions && 1 <= id.value <= MAX_ID
    {
      AllocationFailsIff(sessions.Keys, nextSession);
      for tried := 0 to |sessions| + 1
        invariant Allocation(sessions.Keys, old(nextSession), |sessions| + 1) ==
          Allocation(sessions.Keys, nextSession, |sessions| + 1 - tried)
      {
        var candidate := if nextSession < 1 then 1 else nextSession;
        nextSession := if candidate == MAX_ID then 1 else candidate + 1;
        if candidate !in sessions {
          return Some(candidate);
        }
      }
      return None;
    }

    // `host` is the parsed plan, or the reason why it was refused. The call is
    // the step of a run that opens a session.
    method Open(host: Result<Host, string>) returns (id: Result<nat, string>)
      requires Valid()
      modifies this
      ensures Valid()
      ensures (Abstract(), if id.Ok? then Opened(id.value) else Refused) == Step(old(Abstract()), Op.Open(host.Ok?))
      ensures host.Err? ==> id == Err(host.error) && sessions == old(sessions) && nextSession == old(nextSession)
      ensures host.Ok? && id.Ok? ==>
        id.value !in old(sessions) && sessions == old(sessions)[id.value := host.value]
      ensures host.Ok? && id.Err? ==> sessions == old(sessions) && |sessions| == MAX_ID
      ensures host.Ok? ==>
        Allocation(old(sessions.Keys), old(nextSession), |old(sessions)| + 1) ==
          (if id.Ok? then Some(id.value) else None, nextSession)
    {
      if host.Err? {
        return Err(host.error);
      }
      var session := AllocateSession();
      if session.None? {
        return Err("fixture session identifier space exhausted");
      }
      sessions := sessions[session.value := host.value];
      assert sessions.Keys == old(sessions.Keys) + {session.value};
      return Ok(session.value);
    }

    // Finishing and discarding both remove the session; a second attempt finds
    // nothing. The call is the consuming step of a run.
    method Consume(id: nat) returns (host: Option<Host>)
      requires Valid()
      modifies this`sessions
      ensures Valid()
      ensures (Abstract(), if host.Some? then Consumed(id) else Unknown(id)) == Step(old(Abstract()), Op.Consume(id))
      ensures host == if id in old(sessions) then Some(old(sessions)[id]) else None
      ensures sessions == old(sessions) - {id}
    {
      if id !in sessions {
        return None;
      }
      host := Some(sessions[id]);
      sessions := sessions - {id};
    }
  }

  // ---------- every run ----------

  datatype Op = Open(parses: bool) | Consume(id: nat)

  datatype Event = Opened(id: nat) | Refused | Consumed(id: nat) | Unknown(id: nat)

  datatype State = State(live: set<nat>, next: Counter)

  function Step(s: State, op: Op): (State, Event) {
    match op
    case Open(parses) =>
      if !parses then (s, Refused)
      else
        var (id, next) := Allocation(s.live, s.next, |s.live| + 1);
        if id.Some? then (State(s.live + {id.value}, next), Opened(id.value))
        else (State(s.live, next), Refused)
    case Consume(id) =>
      if id in s.live then (State(s.live - {id}, s.next), Consumed(id)) else (s, Unknown(id))
  }

  function Run(ops: seq<Op>): (State, seq<Event>) {
    if ops == [] then (State({}, 0), [])
    else
      var (s, events) := Run(ops[..|ops| - 1]);
      var (s', event) := Step(s, ops[|ops| - 1]);
      (s', events + [event])
  }

  function Count(events: seq<Event>, event: Event): nat {
    if events == [] then 0
    else Count(events[..|events| - 1], event) + if events[|events| - 1] == event then 1 else 0
  }

  // In every run, an identifier has been handed out as often as it has been
  // consumed, plus once while it is live: no session is consumed twice and no
  // live identifier is handed out again.
  lemma {:induction false} ConsumedAtMostOnce(ops: seq<Op>, id: nat)
    ensures var (s, events) := Run(ops);
      && ValidIds(s.live)
      && Count(events, Opened(id)) == Count(events, Consumed(id)) + if id in s.live then 1 else 0
  {
    if ops != [] {
      var shorter := ops[..|ops| - 1];
      ConsumedAtMostOnce(shorter, id);
      var (s, events) := Run(shorter);
      AllocationFailsIff(s.live, s.next);
      var event := Step(s, ops[|ops| - 1]).1;
      assert (events + [event])[..|events|] == events;
    }
  }
}
