// The compile-time producer scheduler.
//
// Producers are source modules that run at compile time. Each one may import
// other producers and must run after them, with their outputs as its
// predecessors. The batched scheduler runs up to `maxParallel` producers of a
// round at once; `GreedySchedule` is the plain scheduler that runs one producer
// at a time, always the first ready one in name order.

module ProducerGraph {
  import opened Prelude
  import opened Names

  datatype Failure = DuplicateProducers | CyclicGraph | Reported(message: string)

  // What the scheduler sees of an admitted source bundle: which producers a
  // module imports, and what running a module with given predecessor outputs
  // yields. Both are deterministic and may fail.
  datatype Session<!T> = Session(
    scan: string -> Result<seq<string>, string>,
    execute: (string, seq<(string, T)>) -> Result<T, string>)

  type Schedule<T> = Result<seq<(string, T)>, Failure>

  predicate Ready(dependencies: seq<string>, done: set<string>) {
    forall name :: name in dependencies ==> name in done
  }

  function Without(names: seq<string>, name: string): (r: seq<string>)
    ensures forall x :: x in r <==> x in names && x != name
    ensures |r| <= |names|
    ensures name in names ==> |r| < |names|
  {
    if names == [] then []
    else if names[0] == name then Without(names[1..], name)
    else [names[0]] + Without(names[1..], name)
  }

  function Predecessors<T>(outputs: seq<(string, T)>, dependencies: seq<string>): seq<(string, T)> {
    if outputs == [] then []
    else
      var rest := Predecessors(outputs[1..], dependencies);
      if outputs[0].0 in dependencies then [outputs[0]] + rest else rest
  }

  // ---------- the one-at-a-time scheduler ----------

  datatype Choice = Chosen(name: string) | Unreadable(message: string) | NoneReady

  // Scan the pending producers in order and stop at the first ready one.
  function FirstReady<T>(session: Session<T>, pending: seq<string>, done: set<string>): (c: Choice)
    ensures c.Chosen? ==>
      && c.name in pending
      && session.scan(c.name).Ok?
      && Ready(session.scan(c.name).value, done)
  {
    if pending == [] then NoneReady
    else match session.scan(pending[0])
      case Err(message) => Unreadable(message)
      case Ok(dependencies) =>
        if Ready(dependencies, done) then Chosen(pending[0])
        else FirstReady(session, pending[1..], done)
  }

  function Greedy<T>(session: Session<T>, pending: seq<string>, done: set<string>, outputs: seq<(string, T)>)
    : Schedule<T>
    decreases |pending|
  {
    if pending == [] then Ok(outputs)
    else match FirstReady(session, pending, done)
      case NoneReady => Err(CyclicGraph)
      case Unreadable(message) => Err(Reported(message))
      case Chosen(name) =>
        match session.execute(name, Predecessors(outputs, session.scan(name).value))
        case Err(message) => Err(Reported(message))
        case Ok(output) =>
          Greedy(session, Without(pending, name), done + {name}, outputs + [(name, output)])
  }

  function GreedySchedule<T>(session: Session<T>, producers: seq<string>): Schedule<T> {
    var pending := Sort(producers);
    if HasAdjacentDuplicate(pending) then Err(DuplicateProducers)
    else Greedy(session, pending, {}, [])
  }

  // ---------- facts about one round ----------

  // How many leading producers can be scanned before the first failure.
  function Scannable<T>(session: Session<T>, pending: seq<string>): (n: nat)
    ensures n <= |pending|
    ensures forall i :: 0 <= i < n ==> session.scan(pending[i]).Ok?
    ensures n < |pending| ==> session.scan(pending[n]).Err?
  {
    if pending == [] || session.scan(pending[0]).Err? then 0
    else 1 + Scannable(session, pending[1..])
  }

  ghost predicate CacheSound<T>(session: Session<T>, cache: map<string, seq<string>>) {
    forall name :: name in cache ==> session.scan(name) == Ok(cache[name])
  }

  // `names` is a run of successive choices of the one-at-a-time scheduler.
  ghost predicate GreedyRun<T>(session: Session<T>, pending: seq<string>, done: set<string>, names: seq<string>)
    decreases |names|
  {
    names == [] ||
    (FirstReady(session, pending, done) == Chosen(names[0]) &&
     GreedyRun(session, Without(pending, names[0]), done + {names[0]}, names[1..]))
  }

  function WithoutAll(pending: seq<string>, names: seq<string>): (r: seq<string>)
    ensures forall x :: x in r <==> x in pending && x !in names
    decreases |names|
  {
    if names == [] then pending else WithoutAll(Without(pending, names[0]), names[1..])
  }

  lemma {:induction false} GreedyRunExtends<T>(
      session: Session<T>, pending: seq<string>, done: set<string>, names: seq<string>, next: string)
    requires GreedyRun(session, pending, done, names)
    requires FirstReady(session, WithoutAll(pending, names), done + Elements(names)) == Chosen(next)
    ensures GreedyRun(session, pending, done, names + [next])
    decreases |names|
  {
    hide FirstReady, Without, WithoutAll;
    if names == [] {
      assert done + Elements(names) == done;
      assert (names + [next])[1..] == [];
      NothingRemoved(pending);
    } else {
      var first, rest := names[0], names[1..];
      RemoveFirst(pending, done, names);
      GreedyRunExtends(session, Without(pending, first), done + {first}, rest, next);
      assert (names + [next])[1..] == rest + [next];
    }
  }

  lemma NothingRemoved(pending: seq<string>)
    ensures WithoutAll(pending, []) == pending
  {
  }

  lemma RemoveFirst(pending: seq<string>, done: set<string>, names: seq<string>)
    requires names != []
    ensures WithoutAll(pending, names) == WithoutAll(Without(pending, names[0]), names[1..])
    ensures done + {names[0]} + Elements(names[1..]) == done + Elements(names)
  {
    assert names == [names[0]] + names[1..];
  }

  // Filtering out the simulated producers while scanning is the same as having
  // removed them one by one.
  function Filter(pending: seq<string>, skip: set<string>): (r: seq<string>)
    ensures forall x :: x in r <==> x in pending && x !in skip
  {
    if pending == [] then []
    else if pending[0] in skip then Filter(pending[1..], skip)
    else [pending[0]] + Filter(pending[1..], skip)
  }

  lemma {:induction false} FilterOne(pending: seq<string>, skip: set<string>, name: string)
    ensures Filter(Without(pending, name), skip) == Filter(pending, skip + {name})
  {
    if pending != [] {
      FilterOne(pending[1..], skip, name);
      if pending[0] != name {
        assert Without(pending, name)[1..] == Without(pending[1..], name);
      }
    }
  }

  lemma {:induction false} FilterNone(pending: seq<string>, skip: set<string>)
    requires forall x :: x in pending ==> x !in skip
    ensures Filter(pending, skip) == pending
  {
    if pending != [] {
      FilterNone(pending[1..], skip);
    }
  }

  lemma {:induction false} FilterIsWithoutAll(pending: seq<string>, done: set<string>, names: seq<string>)
    requires forall x :: x in pending ==> x !in done
    ensures Filter(pending, done + Elements(names)) == WithoutAll(pending, names)
    decreases |names|
  {
    if names == [] {
      assert done + Elements(names) == done;
      FilterNone(pending, done);
    } else {
      var first, rest := names[0], names[1..];
      assert names == [first] + rest;
      FilterIsWithoutAll(Without(pending, first), done, rest);
      FilterOne(pending, done + Elements(rest), first);
      assert done + Elements(rest) + {first} == done + Elements(names);
    }
  }

  lemma {:induction false} FirstReadyFinds<T>(session: Session<T>, pending: seq<string>, done: set<string>)
    ensures var n, c := Scannable(session, pending), FirstReady(session, pending, done);
      && (c.Chosen? ==> c.name in pending[..n])
      && (c.Unreadable? <==> n < |pending| && forall i :: 0 <= i < n ==> !Ready(session.scan(pending[i]).value, done))
      && (c.Unreadable? ==> session.scan(pending[n]) == Err(c.message))
      && (c.NoneReady? <==> n == |pending| && forall i :: 0 <= i < n ==> !Ready(session.scan(pending[i]).value, done))
  {
    if pending != [] && session.scan(pending[0]).Ok? {
      var n := Scannable(session, pending);
      assert pending[..n] == [pending[0]] + pending[1..][..n - 1];
      if !Ready(session.scan(pending[0]).value, done) {
        FirstReadyFinds(session, pending[1..], done);
        forall i | 0 < i < n ensures pending[i] == pending[1..][i - 1] {}
        assert forall i :: 0 <= i < n - 1 ==> pending[1..][i] == pending[i + 1];
      } else {
        assert pending[0] in pending[..n];
      }
    }
  }

  // The greedy choice exists exactly when something scannable is ready, and it
  // is one of the producers that are ready now.
  lemma ReadyNowDecides<T>(session: Session<T>, pending: seq<string>, done: set<string>, readyNow: set<string>)
    requires forall x :: x in readyNow <==>
      x in pending[..Scannable(session, pending)] && Ready(session.scan(x).value, done)
    ensures readyNow != {} <==> FirstReady(session, pending, done).Chosen?
    ensures FirstReady(session, pending, done).Chosen? ==> FirstReady(session, pending, done).name in readyNow
  {
    FirstReadyFinds(session, pending, done);
    var n := Scannable(session, pending);
    if readyNow != {} {
      var x :| x in readyNow;
      var i :| 0 <= i < n && pending[..n][i] == x;
      assert pending[i] == x;
    }
  }

  // ---------- running a batch ----------

  // Committing results in batch order, the first failure ending the schedule.
  ghost function AfterResults<T>(
      session: Session<T>, pending: seq<string>, done: set<string>, outputs: seq<(string, T)>,
      results: seq<(string, Result<T, string>)>): Schedule<T>
    decreases |results|
  {
    if results == [] then Greedy(session, pending, done, outputs)
    else match results[0].1
      case Err(message) => Err(Reported(message))
      case Ok(output) =>
        var name := results[0].0;
        AfterResults(session, Without(pending, name), done + {name}, outputs + [(name, output)], results[1..])
  }

  lemma {:induction false} PredecessorsConcat<T>(a: seq<(string, T)>, b: seq<(string, T)>, dependencies: seq<string>)
    ensures Predecessors(a + b, dependencies) == Predecessors(a, dependencies) + Predecessors(b, dependencies)
  {
    if a == [] {
      assert a + b == b;
    } else {
      PredecessorsConcat(a[1..], b, dependencies);
      assert (a + b)[1..] == a[1..] + b;
    }
  }

  // Running a greedy run with the predecessors known when the round started
  // gives what running it one at a time gives: a producer that was ready at the
  // start of the round does not depend on its batch mates.
  lemma {:induction false} BatchIsGreedy<T>(
      session: Session<T>, pending: seq<string>, done: set<string>, outputs: seq<(string, T)>,
      start: set<string>, before: seq<(string, T)>, results: seq<(string, Result<T, string>)>, names: seq<string>)
    requires |names| == |results|
    requires forall i :: 0 <= i < |names| ==> results[i].0 == names[i] && names[i] in pending
    requires GreedyRun(session, pending, done, names)
    requires start <= done
    requires forall x :: x in pending ==> x !in start
    requires forall i :: 0 <= i < |names| ==>
      && session.scan(names[i]).Ok?
      && Ready(session.scan(names[i]).value, start)
      && results[i].1 == session.execute(names[i], Predecessors(before, session.scan(names[i]).value))
    requires forall d :: Ready(d, start) ==> Predecessors(outputs, d) == Predecessors(before, d)
    ensures Greedy(session, pending, done, outputs) == AfterResults(session, pending, done, outputs, results)
    decreases |results|
  {
    if results == [] {
    } else {
      var name, dependencies := names[0], session.scan(names[0]).value;
      assert name in pending && FirstReady(session, pending, done) == Chosen(name);
      assert Predecessors(outputs, dependencies) == Predecessors(before, dependencies);
      match results[0].1
      case Err(_) =>
      case Ok(output) =>
        var pending', outputs' := Without(pending, name), outputs + [(name, output)];
        forall d | Ready(d, start) ensures Predecessors(outputs', d) == Predecessors(before, d) {
          PredecessorsConcat(outputs, [(name, output)], d);
          assert name !in d;
        }
        GreedyRunKeepsNames(session, pending', done + {name}, names[1..]);
        BatchIsGreedy(session, pending', done + {name}, outputs', start, before, results[1..], names[1..]);
    }
  }

  lemma {:induction false} GreedyRunKeepsNames<T>(
      session: Session<T>, pending: seq<string>, done: set<string>, names: seq<string>)
    requires GreedyRun(session, pending, done, names)
    ensures forall i :: 0 <= i < |names| ==> names[i] in pending
    decreases |names|
  {
    if names != [] {
      GreedyRunKeepsNames(session, Without(pending, names[0]), done + {names[0]}, names[1..]);
      forall i | 0 <= i < |names| ensures names[i] in pending {
        if i > 0 { assert names[i] == names[1..][i - 1]; }
      }
    }
  }

  lemma {:induction false} FirstErrorWins<T>(
      session: Session<T>, pending: seq<string>, done: set<string>, outputs: seq<(string, T)>,
      results: seq<(string, Result<T, string>)>, k: nat)
    requires k < |results| && results[k].1.Err?
    requires forall i :: 0 <= i < k ==> results[i].1.Ok?
    ensures AfterResults(session, pending, done, outputs, results) == Err(Reported(results[k].1.error))
    decreases k
  {
    if k > 0 {
      var name := results[0].0;
      FirstErrorWins(session, Without(pending, name), done + {name},
                     outputs + [(name, results[0].1.value)], results[1..], k - 1);
    }
  }

  // ---------- the batched scheduler ----------

  // The names that can be scanned and whose dependencies have completed.
  function ReadyAmong<T>(session: Session<T>, names: seq<string>, completed: set<string>): (r: set<string>)
    ensures forall x :: x in r <==> x in names && session.scan(x).Ok? && Ready(session.scan(x).value, completed)
  {
    set x | x in names && session.scan(x).Ok? && Ready(session.scan(x).value, completed)
  }

  lemma ScanStep<T>(session: Session<T>, pending: seq<string>, completed: set<string>, i: nat)
    requires i < |pending|
    ensures Scannable(session, pending[i..]) ==
      if session.scan(pending[i]).Err? then 0 else 1 + Scannable(session, pending[i + 1..])
    ensures Elements(pending[..i + 1]) == Elements(pending[..i]) + {pending[i]}
    ensures ReadyAmong(session, pending[..i + 1], completed) ==
      ReadyAmong(session, pending[..i], completed) +
      (if session.scan(pending[i]).Ok? && Ready(session.scan(pending[i]).value, completed) then {pending[i]} else {})
  {
    hide Ready;
    assert pending[i..][1..] == pending[i + 1..];
    assert pending[..i + 1] == pending[..i] + [pending[i]];
  }

  lemma CachedScan<T>(session: Session<T>, cache: map<string, seq<string>>, name: string)
    requires CacheSound(session, cache)
    ensures name in cache ==> session.scan(name) == Ok(cache[name])
    ensures session.scan(name).Ok? ==> CacheSound(session, cache[name := session.scan(name).value])
  {
  }

  // Fill the dependency cache for the pending producers, up to the first scan
  // failure, and collect the ones that are ready now.
  method ScanPending<T>(
      session: Session<T>, pending: seq<string>, completed: set<string>, cache: map<string, seq<string>>)
    returns (cache': map<string, seq<string>>, readyNow: set<string>, scanError: Option<string>)
    requires CacheSound(session, cache)
    ensures CacheSound(session, cache')
    ensures var n := Scannable(session, pending);
      && cache'.Keys == cache.Keys + Elements(pending[..n])
      && (n < |pending| ==> pending[n] !in cache')
      && readyNow == ReadyAmong(session, pending[..n], completed)
      && scanError == (if n < |pending| then Some(session.scan(pending[n]).error) else None)
  {
    hide Elements, Ready, CacheSound, ReadyAmong;
    cache', readyNow, scanError := cache, {}, None;
    var i := 0;
    assert pending[0..] == pending && Elements(pending[..0]) == {} by { NoElements<string>(); }
    assert ReadyAmong(session, pending[..0], completed) == {};
    hide Scannable;
    while i < |pending|
      invariant 0 <= i <= |pending|
      invariant Scannable(session, pending) == i + Scannable(session, pending[i..])
      invariant CacheSound(session, cache')
      invariant cache'.Keys == cache.Keys + Elements(pending[..i])
      invariant readyNow == ReadyAmong(session, pending[..i], completed)
    {
      var producer := pending[i];
      ScanStep(session, pending, completed, i);
      CachedScan(session, cache', producer);
      if producer !in cache' {
        match session.scan(producer) {
          case Err(message) =>
            scanError := Some(message);
            return;
          case Ok(dependencies) =>
            cache' := cache'[producer := dependencies];
        }
      }
      if Ready(cache'[producer], completed) {
        readyNow := readyNow + {producer};
      }
      i := i + 1;
    }
    assert pending[..i] == pending;
  }

  // The choice among the producers from position i on, given the first of them.
  lemma LookAtNext<T>(session: Session<T>, pending: seq<string>, simulated: set<string>, i: nat)
    requires i < |pending|
    ensures FirstReady(session, Filter(pending[i..], simulated), simulated) ==
      if pending[i] in simulated then FirstReady(session, Filter(pending[i + 1..], simulated), simulated)
      else if session.scan(pending[i]).Err? then Unreadable(session.scan(pending[i]).error)
      else if Ready(session.scan(pending[i]).value, simulated) then Chosen(pending[i])
      else FirstReady(session, Filter(pending[i + 1..], simulated), simulated)
  {
    assert pending[i..][1..] == pending[i + 1..];
    if pending[i] !in simulated {
      var rest := Filter(pending[i + 1..], simulated);
      assert ([pending[i]] + rest)[1..] == rest;
    }
  }

  lemma NothingLeft<T>(session: Session<T>, pending: seq<string>, simulated: set<string>)
    ensures FirstReady(session, Filter(pending[|pending|..], simulated), simulated) == NoneReady
  {
  }

  // The next producer to simulate: the first cached and ready one, looking no
  // further than the first producer whose dependencies are unknown.
  method NextSimulated<T>(
      session: Session<T>, pending: seq<string>, simulated: set<string>, cache: map<string, seq<string>>)
    returns (next: Option<string>)
    requires CacheSound(session, cache)
    requires forall i :: 0 <= i < Scannable(session, pending) ==> pending[i] in cache
    requires forall x :: x in pending && x in simulated ==> session.scan(x).Ok?
    ensures next.Some? <==> FirstReady(session, Filter(pending, simulated), simulated).Chosen?
    ensures next.Some? ==> FirstReady(session, Filter(pending, simulated), simulated) == Chosen(next.value)
  {
    hide Filter, FirstReady, Scannable;
    var i := 0;
    ghost var todo := Filter(pending, simulated);
    assert pending[0..] == pending;
    while i < |pending|
      invariant 0 <= i <= Scannable(session, pending)
      invariant FirstReady(session, todo, simulated) == FirstReady(session, Filter(pending[i..], simulated), simulated)
    {
      var producer := pending[i];
      LookAtNext(session, pending, simulated, i);
      if producer !in simulated {
        if producer !in cache {
          return None;
        }
        if Ready(cache[producer], simulated) {
          return Some(producer);
        }
      }
      i := i + 1;
    }
    NothingLeft(session, pending, simulated);
    return None;
  }

  // The longest prefix of the greedy order, up to `maxParallel` producers, that
  // was already ready when the round started.
  method SelectBatch<T>(
      session: Session<T>, pending: seq<string>, completed: set<string>, cache: map<string, seq<string>>,
      readyNow: set<string>, maxParallel: nat) returns (batch: seq<string>)
    requires maxParallel >= 1
    requires CacheSound(session, cache)
    requires forall i :: 0 <= i < Scannable(session, pending) ==> pending[i] in cache
    requires forall x :: x in pending ==> x !in completed
    requires forall x :: x in readyNow <==>
      x in pending[..Scannable(session, pending)] && Ready(session.scan(x).value, completed)
    ensures GreedyRun(session, pending, completed, batch)
    ensures forall i :: 0 <= i < |batch| ==> batch[i] in readyNow
    ensures |batch| <= maxParallel
    ensures readyNow != {} <==> batch != []
  {
    hide Filter, WithoutAll, FirstReady, Scannable, CacheSound, Ready;
    var simulated := completed;
    batch := [];
    assert completed + Elements([]) == completed;
    FilterNone(pending, completed);
    ReadyNowDecides(session, pending, completed, readyNow);
    while true
      invariant GreedyRun(session, pending, completed, batch)
      invariant simulated == completed + Elements(batch)
      invariant forall i :: 0 <= i < |batch| ==> batch[i] in readyNow
      invariant |batch| <= maxParallel
      decreases maxParallel - |batch|
    {
      var next := NextSimulated(session, pending, simulated, cache);
      FilterIsWithoutAll(pending, completed, batch);
      if next.None? {
        break;
      }
      var producer := next.value;
      if producer !in readyNow || |batch| >= maxParallel {
        break;
      }
      GreedyRunExtends(session, pending, completed, batch, producer);
      assert Elements(batch + [producer]) == Elements(batch) + {producer};
      batch := batch + [producer];
      simulated := simulated + {producer};
    }
  }

  method RunBatch<T>(
      session: Session<T>, batch: seq<(string, seq<(string, T)>)>, maxParallel: nat)
    returns (r: Result<seq<(string, Result<T, string>)>, string>)
    ensures r.Ok? ==>
      && |r.value| == |batch|
      && forall i :: 0 <= i < |batch| ==> r.value[i] == (batch[i].0, session.execute(batch[i].0, batch[i].1))
    ensures r.Err? ==> exists k ::
      && 0 <= k < |batch|
      && session.execute(batch[k].0, batch[k].1) == Err(r.error)
      && forall i :: 0 <= i < k ==> session.execute(batch[i].0, batch[i].1).Ok?
  {
    var results := [];
    if |batch| == 1 || maxParallel == 1 {
      // In turn on this thread, giving up at the first failure.
      for k := 0 to |batch|
        invariant |results| == k
        invariant forall i :: 0 <= i < k ==>
          results[i] == (batch[i].0, session.execute(batch[i].0, batch[i].1)) && results[i].1.Ok?
      {
        var (producer, predecessors) := batch[k];
        match session.execute(producer, predecessors) {
          case Err(message) => return Err(message);
          case Ok(prior) => results := results + [(producer, Ok(prior))];
        }
      }
    } else {
      // One thread each, joined in batch order.
      for k := 0 to |batch|
        invariant |results| == k
        invariant forall i :: 0 <= i < k ==>
          results[i] == (batch[i].0, session.execute(batch[i].0, batch[i].1))
      {
        var (producer, predecessors) := batch[k];
        results := results + [(producer, session.execute(producer, predecessors))];
      }
    }
    return Ok(results);
  }

  // Give every producer of the batch the outputs of its dependencies, in
  // output order.
  method AttachPredecessors<T>(
      session: Session<T>, names: seq<string>, outputs: seq<(string, T)>, cache: map<string, seq<string>>)
    returns (batch: seq<(string, seq<(string, T)>)>)
    requires CacheSound(session, cache)
    requires forall i :: 0 <= i < |names| ==> names[i] in cache
    ensures |batch| == |names|
    ensures forall i :: 0 <= i < |names| ==>
      session.scan(names[i]).Ok? && batch[i] == (names[i], Predecessors(outputs, session.scan(names[i]).value))
  {
    batch := [];
    for k := 0 to |names|
      invariant |batch| == k
      invariant forall i :: 0 <= i < k ==> batch[i] == (names[i], Predecessors(outputs, cache[names[i]]))
    {
      batch := batch + [(names[k], Predecessors(outputs, cache[names[k]]))];
    }
  }

  // Record the results in batch order; the first failure ends the schedule.
  method Commit<T>(
      session: Session<T>, pending: seq<string>, completed: set<string>, outputs: seq<(string, T)>,
      results: seq<(string, Result<T, string>)>)
    returns (pending': seq<string>, completed': set<string>, outputs': seq<(string, T)>, failure: Option<string>)
    requires forall x :: x in pending ==> x !in completed
    ensures failure.Some? ==>
      AfterResults(session, pending, completed, outputs, results) == Err(Reported(failure.value))
    ensures failure.None? ==>
      AfterResults(session, pending, completed, outputs, results) == Greedy(session, pending', completed', outputs')
    ensures forall x :: x in pending' ==> x !in completed'
    ensures failure.None? && results != [] && results[0].0 in pending ==> |pending'| < |pending|
  {
    pending', completed', outputs', failure := pending, completed, outputs, None;
    assert results[0..] == results;
    for k := 0 to |results|
      invariant AfterResults(session, pending, completed, outputs, results) ==
        AfterResults(session, pending', completed', outputs', results[k..])
      invariant forall x :: x in pending' ==> x !in completed'
      invariant k == 0 ==> pending' == pending
      invariant k > 0 && results[0].0 in pending ==> |pending'| < |pending|
    {
      var (producer, result) := results[k];
      assert results[k..][0] == results[k] && results[k..][1..] == results[k + 1..];
      if result.Err? {
        failure := Some(result.error);
        return;
      }
      completed' := completed' + {producer};
      outputs' := outputs' + [(producer, result.value)];
      pending' := Without(pending', producer);
    }
    assert results[|results|..] == [];
  }

  // What the joined results of a batch mean for the one-at-a-time schedule.
  lemma JoinedBatch<T>(
      session: Session<T>, pending: seq<string>, completed: set<string>, outputs: seq<(string, T)>,
      names: seq<string>, batch: seq<(string, seq<(string, T)>)>, run: Result<seq<(string, Result<T, string>)>, string>)
    requires GreedyRun(session, pending, completed, names)
    requires |batch| == |names|
    requires forall x :: x in pending ==> x !in completed
    requires forall i :: 0 <= i < |names| ==>
      && session.scan(names[i]).Ok?
      && Ready(session.scan(names[i]).value, completed)
      && batch[i] == (names[i], Predecessors(outputs, session.scan(names[i]).value))
    requires run.Ok? ==>
      && |run.value| == |batch|
      && forall i :: 0 <= i < |batch| ==> run.value[i] == (batch[i].0, session.execute(batch[i].0, batch[i].1))
    requires run.Err? ==> exists k ::
      && 0 <= k < |batch|
      && session.execute(batch[k].0, batch[k].1) == Err(run.error)
      && forall i :: 0 <= i < k ==> session.execute(batch[i].0, batch[i].1).Ok?
    ensures run.Ok? ==>
      Greedy(session, pending, completed, outputs) == AfterResults(session, pending, completed, outputs, run.value)
    ensures run.Err? ==> Greedy(session, pending, completed, outputs) == Err(Reported(run.error))
  {
    GreedyRunKeepsNames(session, pending, completed, names);
    var all := seq(|names|, i requires 0 <= i < |names| => (names[i], session.execute(names[i], batch[i].1)));
    BatchIsGreedy(session, pending, completed, outputs, completed, outputs, all, names);
    if run.Err? {
      var k :| 0 <= k < |batch| && session.execute(batch[k].0, batch[k].1) == Err(run.error)
        && forall i :: 0 <= i < k ==> session.execute(batch[i].0, batch[i].1).Ok?;
      FirstErrorWins(session, pending, completed, outputs, all, k);
    } else {
      assert run.value == all;
    }
  }

  // The batched scheduler refines the one-at-a-time scheduler for every
  // parallelism bound: same outputs in the same order, or the same failure.
  method ExecuteProducerGraph<T>(session: Session<T>, producers: seq<string>, maxParallel: nat)
    returns (r: Schedule<T>)
    requires maxParallel >= 1
    ensures r == GreedySchedule(session, producers)
  {
    var pending := Sort(producers);
    if HasAdjacentDuplicate(pending) {
      return Err(DuplicateProducers);
    }
    var outputs: seq<(string, T)>, cache, completed: set<string> := [], map[], {};
    while pending != []
      invariant GreedySchedule(session, producers) == Greedy(session, pending, completed, outputs)
      invariant CacheSound(session, cache)
      invariant forall x :: x in pending ==> x !in completed
      decreases |pending|
    {
      var readyNow, scanError;
      cache, readyNow, scanError := ScanPending(session, pending, completed, cache);
      ReadyNowDecides(session, pending, completed, readyNow);
      FirstReadyFinds(session, pending, completed);
      if readyNow == {} {
        return Err(if scanError.Some? then Reported(scanError.value) else CyclicGraph);
      }
      var names := SelectBatch(session, pending, completed, cache, readyNow, maxParallel);
      if names == [] {
        assert false;
      }
      GreedyRunKeepsNames(session, pending, completed, names);
      var batch := AttachPredecessors(session, names, outputs, cache);
      var run := RunBatch(session, batch, maxParallel);
      JoinedBatch(session, pending, completed, outputs, names, batch, run);
      if run.Err? {
        return Err(Reported(run.error));
      }
      var failure;
      pending, completed, outputs, failure := Commit(session, pending, completed, outputs, run.value);
      if failure.Some? {
        return Err(Reported(failure.value));
      }
    }
    return Ok(outputs);
  }
}
