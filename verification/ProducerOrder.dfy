// What the schedule means: it is the least topological order of the import
// graph, and it is missing exactly when there is no topological order.

module ProducerOrder {
  import opened Prelude
  import opened Names
  import opened ProducerGraph

  function NamesOf<T>(outputs: seq<(string, T)>): (r: seq<string>)
    ensures |r| == |outputs|
    ensures forall i :: 0 <= i < |r| ==> r[i] == outputs[i].0
  {
    seq(|outputs|, i requires 0 <= i < |outputs| => outputs[i].0)
  }

  // Every producer once, each after all of its dependencies.
  ghost predicate TopologicalOrder<T>(session: Session<T>, producers: seq<string>, order: seq<string>) {
    && Distinct(order)
    && Elements(order) == Elements(producers)
    && InDependencyOrder(session, order)
  }

  // Lexicographic comparison of orders, by the order on names.
  ghost predicate LexAtMost(a: seq<string>, b: seq<string>) {
    a == b || exists k :: 0 <= k < |a| && k < |b| && a[..k] == b[..k] && Before(a[k], b[k])
  }

  // Every name comes after all of its dependencies.
  ghost predicate InDependencyOrder<T>(session: Session<T>, order: seq<string>) {
    forall i :: 0 <= i < |order| ==>
      session.scan(order[i]).Ok? && Ready(session.scan(order[i]).value, Elements(order[..i]))
  }

  // Each output is what its producer yields on exactly the outputs of its
  // dependencies that come before it, in output order.
  ghost predicate FedByPredecessors<T>(session: Session<T>, outputs: seq<(string, T)>) {
    forall i :: 0 <= i < |outputs| ==>
      && session.scan(outputs[i].0).Ok?
      && session.execute(outputs[i].0, Predecessors(outputs[..i], session.scan(outputs[i].0).value))
           == Ok(outputs[i].1)
  }

  // Outputs of some of the producers, each made after its dependencies and from
  // their outputs.
  ghost predicate Produced<T>(session: Session<T>, producers: seq<string>, outputs: seq<(string, T)>) {
    && Distinct(NamesOf(outputs))
    && Elements(NamesOf(outputs)) <= Elements(producers)
    && InDependencyOrder(session, NamesOf(outputs))
    && FedByPredecessors(session, outputs)
  }

  // No producer fails once its dependencies have been produced.
  ghost predicate ExecutesAll<T(!new)>(session: Session<T>, producers: seq<string>) {
    forall outputs, name ::
      && Produced(session, producers, outputs)
      && name in producers && name !in NamesOf(outputs)
      && session.scan(name).Ok? && Ready(session.scan(name).value, Elements(NamesOf(outputs)))
      ==> session.execute(name, Predecessors(outputs, session.scan(name).value)).Ok?
  }

  // ---------- the invariant of a greedy schedule ----------

  ghost predicate Progress<T>(
      session: Session<T>, producers: seq<string>, pending: seq<string>, done: set<string>, outputs: seq<(string, T)>)
  {
    var order := NamesOf(outputs);
    && StrictlyAscending(pending)
    && Elements(pending) + Elements(order) == Elements(producers)
    && Elements(pending) !! Elements(order)
    && done == Elements(order)
    && Distinct(order)
    && InDependencyOrder(session, order)
  }

  lemma {:induction false} WithoutAscends(names: seq<string>, name: string)
    requires StrictlyAscending(names)
    ensures StrictlyAscending(Without(names, name))
  {
    if names != [] {
      WithoutAscends(names[1..], name);
      var r := Without(names[1..], name);
      forall j | 0 <= j < |r| ensures Before(names[0], r[j]) {
        assert r[j] in r;
        var k :| 0 <= k < |names[1..]| && names[1..][k] == r[j];
        assert names[k + 1] == r[j];
      }
    }
  }

  lemma OneMoreName<T>(outputs: seq<(string, T)>, name: string, output: T)
    ensures NamesOf(outputs + [(name, output)]) == NamesOf(outputs) + [name]
    ensures Elements(NamesOf(outputs) + [name]) == Elements(NamesOf(outputs)) + {name}
  {
  }

  // Appending a ready name keeps an order in dependency order.
  lemma ReadyNameAppends<T>(session: Session<T>, order: seq<string>, name: string)
    requires session.scan(name).Ok? && Ready(session.scan(name).value, Elements(order))
    requires InDependencyOrder(session, order)
    ensures InDependencyOrder(session, order + [name])
  {
    var order' := order + [name];
    forall i | 0 <= i < |order'|
      ensures session.scan(order'[i]).Ok? && Ready(session.scan(order'[i]).value, Elements(order'[..i]))
    {
      assert order'[..i] == if i < |order| then order[..i] else order;
    }
  }

  lemma StepKeepsProgress<T>(
      session: Session<T>, producers: seq<string>, pending: seq<string>, done: set<string>,
      outputs: seq<(string, T)>, name: string, output: T)
    requires Progress(session, producers, pending, done, outputs)
    requires FirstReady(session, pending, done) == Chosen(name)
    ensures Progress(session, producers, Without(pending, name), done + {name}, outputs + [(name, output)])
  {
    hide FirstReady, Without, Ready, StrictlyAscending;
    WithoutAscends(pending, name);
    OneMoreName(outputs, name, output);
    ReadyNameAppends(session, NamesOf(outputs), name);
    hide NamesOf;
    var order, pending' := NamesOf(outputs), Without(pending, name);
    assert name in Elements(pending);
    assert Elements(pending') == Elements(pending) - {name};
    assert name !in Elements(order);
    assert name !in order;
  }

  lemma StartsWithProgress<T>(session: Session<T>, producers: seq<string>)
    ensures HasAdjacentDuplicate(Sort(producers)) <==> !Distinct(producers)
    ensures Distinct(producers) ==> Progress(session, producers, Sort(producers), {}, [])
  {
    SortAscends(producers);
    SortedWithoutAdjacentDuplicates(Sort(producers));
    SameMultisetDistinct(Sort(producers), producers);
    assert Elements<string>([]) == {};
  }

  // ---------- the order is the least one ----------

  // The greedy choice is the least of the pending producers that are ready.
  lemma {:induction false} ChoiceIsLeast<T>(session: Session<T>, pending: seq<string>, done: set<string>, name: string)
    requires StrictlyAscending(pending)
    requires name in pending && session.scan(name).Ok? && Ready(session.scan(name).value, done)
    requires FirstReady(session, pending, done).Chosen?
    ensures AtMost(FirstReady(session, pending, done).name, name)
  {
    if pending[0] == name {
    } else if Ready(session.scan(pending[0]).value, done) {
      var k :| 0 < k < |pending| && pending[k] == name;
      assert Before(pending[0], pending[k]);
    } else {
      assert name in pending[1..];
      ChoiceIsLeast(session, pending[1..], done, name);
    }
  }

  // A topological order that agrees with the outputs so far continues with a
  // pending producer that is ready.
  lemma NextOfOrderIsReady<T>(
      session: Session<T>, producers: seq<string>, pending: seq<string>, done: set<string>,
      outputs: seq<(string, T)>, order: seq<string>)
    requires Progress(session, producers, pending, done, outputs)
    requires TopologicalOrder(session, producers, order)
    requires NamesOf(outputs) <= order && pending != []
    ensures |outputs| < |order|
    ensures order[|outputs|] in pending
    ensures Ready(session.scan(order[|outputs|]).value, done)
  {
    var k := |outputs|;
    var known := NamesOf(outputs);
    assert pending[0] in Elements(pending);
    assert pending[0] in Elements(order) && pending[0] !in Elements(known);
    assert known != order;
    assert order[..k] == known;
    assert order[k] in Elements(order);
    assert order[k] !in known;
    assert order[k] in Elements(pending);
  }

  // Every topological order that extends the outputs so far is at or after the
  // greedy result.
  lemma {:induction false} GreedyIsLeast<T>(
      session: Session<T>, producers: seq<string>, pending: seq<string>, done: set<string>,
      outputs: seq<(string, T)>, order: seq<string>)
    requires Progress(session, producers, pending, done, outputs)
    requires Greedy(session, pending, done, outputs).Ok?
    requires TopologicalOrder(session, producers, order)
    requires NamesOf(outputs) <= order
    ensures var result := NamesOf(Greedy(session, pending, done, outputs).value);
      NamesOf(outputs) <= result && LexAtMost(result, order)
    decreases |pending|
  {
    hide FirstReady, Without, Before, Predecessors, StrictlyAscending;
    var known := NamesOf(outputs);
    if pending == [] {
      assert Elements(pending) == {};
      DistinctCardinality(known);
      DistinctCardinality(order);
      assert known == order;
    } else {
      var choice := FirstReady(session, pending, done);
      var name := choice.name;
      var output := session.execute(name, Predecessors(outputs, session.scan(name).value)).value;
      StepKeepsProgress(session, producers, pending, done, outputs, name, output);
      NextOfOrderIsReady(session, producers, pending, done, outputs, order);
      var k := |outputs|;
      ChoiceIsLeast(session, pending, done, order[k]);
      var outputs' := outputs + [(name, output)];
      assert NamesOf(outputs') == known + [name];
      if name == order[k] {
        assert NamesOf(outputs') <= order;
        GreedyIsLeast(session, producers, Without(pending, name), done + {name}, outputs', order);
      } else {
        GreedyExtends(session, Without(pending, name), done + {name}, outputs');
        var result := NamesOf(Greedy(session, pending, done, outputs).value);
        assert result[..k] == order[..k] && result[k] == name;
      }
    }
  }

  lemma {:induction false} GreedyExtends<T>(
      session: Session<T>, pending: seq<string>, done: set<string>, outputs: seq<(string, T)>)
    requires Greedy(session, pending, done, outputs).Ok?
    ensures outputs <= Greedy(session, pending, done, outputs).value
    ensures NamesOf(outputs) <= NamesOf(Greedy(session, pending, done, outputs).value)
    decreases |pending|
  {
    if pending != [] {
      var name := FirstReady(session, pending, done).name;
      var output := session.execute(name, Predecessors(outputs, session.scan(name).value)).value;
      GreedyExtends(session, Without(pending, name), done + {name}, outputs + [(name, output)]);
    }
  }

  lemma {:induction false} GreedyIsTopological<T>(
      session: Session<T>, producers: seq<string>, pending: seq<string>, done: set<string>, outputs: seq<(string, T)>)
    requires Progress(session, producers, pending, done, outputs)
    requires Greedy(session, pending, done, outputs).Ok?
    ensures TopologicalOrder(session, producers, NamesOf(Greedy(session, pending, done, outputs).value))
    decreases |pending|
  {
    if pending != [] {
      var name := FirstReady(session, pending, done).name;
      var output := session.execute(name, Predecessors(outputs, session.scan(name).value)).value;
      StepKeepsProgress(session, producers, pending, done, outputs, name, output);
      GreedyIsTopological(session, producers, Without(pending, name), done + {name}, outputs + [(name, output)]);
    }
  }

  // On success the producers come out in the lexicographically least of all
  // topological orders of their import graph.
  lemma ScheduleIsLeastTopologicalOrder<T>(session: Session<T>, producers: seq<string>)
    requires GreedySchedule(session, producers).Ok?
    ensures var order := NamesOf(GreedySchedule(session, producers).value);
      && TopologicalOrder(session, producers, order)
      && forall other :: TopologicalOrder(session, producers, other) ==> LexAtMost(order, other)
  {
    StartsWithProgress(session, producers);
    GreedyIsTopological(session, producers, Sort(producers), {}, []);
    forall other | TopologicalOrder(session, producers, other)
      ensures LexAtMost(NamesOf(GreedySchedule(session, producers).value), other)
    {
      GreedyIsLeast(session, producers, Sort(producers), {}, [], other);
    }
  }

  // ---------- every output comes from its own predecessors ----------

  lemma {:induction false} GreedyFeedsPredecessors<T>(
      session: Session<T>, pending: seq<string>, done: set<string>, outputs: seq<(string, T)>)
    requires FedByPredecessors(session, outputs)
    requires Greedy(session, pending, done, outputs).Ok?
    ensures FedByPredecessors(session, Greedy(session, pending, done, outputs).value)
    decreases |pending|
  {
    if pending != [] {
      var name := FirstReady(session, pending, done).name;
      var output := session.execute(name, Predecessors(outputs, session.scan(name).value)).value;
      var outputs' := outputs + [(name, output)];
      assert forall i :: 0 <= i <= |outputs| ==> outputs'[..i] == outputs[..i];
      assert outputs[..|outputs|] == outputs;
      GreedyFeedsPredecessors(session, Without(pending, name), done + {name}, outputs');
    }
  }

  // Every output of a schedule comes from its own predecessors.
  lemma ScheduleFeedsPredecessors<T>(session: Session<T>, producers: seq<string>)
    requires GreedySchedule(session, producers).Ok?
    ensures FedByPredecessors(session, GreedySchedule(session, producers).value)
  {
    GreedyFeedsPredecessors(session, Sort(producers), {}, []);
  }

  // The predecessors of a producer are picked from the outputs by position:
  // exactly those of its dependencies, in output order.
  lemma {:induction false} PredecessorsKeepOrder<T>(outputs: seq<(string, T)>, dependencies: seq<string>)
    returns (at: seq<nat>)
    ensures |at| == |Predecessors(outputs, dependencies)|
    ensures forall i :: 0 <= i < |at| ==> at[i] < |outputs| && Predecessors(outputs, dependencies)[i] == outputs[at[i]]
    ensures forall i, j :: 0 <= i < j < |at| ==> at[i] < at[j]
    ensures forall k: nat :: k < |outputs| ==> (k in at <==> outputs[k].0 in dependencies)
  {
    if outputs == [] {
      at := [];
    } else {
      var rest := outputs[1..];
      var later := PredecessorsKeepOrder(rest, dependencies);
      var first := outputs[0].0 in dependencies;
      at := ShiftPositions(later, first);
      var fed, fed' := Predecessors(outputs, dependencies), Predecessors(rest, dependencies);
      assert fed == if first then [outputs[0]] + fed' else fed';
      hide Predecessors;
      forall i | 0 <= i < |at| ensures at[i] < |outputs| && fed[i] == outputs[at[i]] {
        if first && i > 0 {
          assert fed[i] == fed'[i - 1] == rest[later[i - 1]];
        }
      }
      forall k: nat | k < |outputs| ensures k in at <==> outputs[k].0 in dependencies {
        if k > 0 {
          assert outputs[k] == rest[k - 1];
        }
      }
    }
  }

  // Positions one further on, with or without a new first one.
  lemma ShiftPositions(later: seq<nat>, first: bool) returns (at: seq<nat>)
    requires forall i, j :: 0 <= i < j < |later| ==> later[i] < later[j]
    ensures |at| == |later| + if first then 1 else 0
    ensures first ==> at[0] == 0 && forall i :: 0 <= i < |later| ==> at[i + 1] == later[i] + 1
    ensures !first ==> forall i :: 0 <= i < |later| ==> at[i] == later[i] + 1
    ensures forall i, j :: 0 <= i < j < |at| ==> at[i] < at[j]
    ensures forall k: nat :: k in at <==> (k == 0 && first) || (k > 0 && k - 1 in later)
  {
    var shifted: seq<nat> := seq(|later|, i requires 0 <= i < |later| => later[i] + 1);
    at := if first then [0] + shifted else shifted;
    forall k: nat ensures k in shifted <==> k > 0 && k - 1 in later {
      if k > 0 && k - 1 in later {
        var i :| 0 <= i < |later| && later[i] == k - 1;
        assert shifted[i] == k;
      }
    }
  }

  // ---------- when scheduling fails ----------

  // A producer given twice is reported, and nothing else is reported that way.
  lemma DuplicatesReportedIff<T>(session: Session<T>, producers: seq<string>)
    ensures GreedySchedule(session, producers) == Err(DuplicateProducers) <==>
      exists i, j :: 0 <= i < j < |producers| && producers[i] == producers[j]
  {
    StartsWithProgress(session, producers);
    GreedyFindsNoDuplicates(session, Sort(producers), {}, []);
  }

  lemma {:induction false} GreedyFindsNoDuplicates<T>(
      session: Session<T>, pending: seq<string>, done: set<string>, outputs: seq<(string, T)>)
    ensures Greedy(session, pending, done, outputs) != Err(DuplicateProducers)
    decreases |pending|
  {
    if pending != [] && FirstReady(session, pending, done).Chosen? {
      var name := FirstReady(session, pending, done).name;
      var result := session.execute(name, Predecessors(outputs, session.scan(name).value));
      if result.Ok? {
        GreedyFindsNoDuplicates(session, Without(pending, name), done + {name}, outputs + [(name, result.value)]);
      }
    }
  }

  // While some topological order exists, something pending is ready.
  lemma SomethingIsReady<T>(
      session: Session<T>, producers: seq<string>, pending: seq<string>, done: set<string>,
      outputs: seq<(string, T)>, order: seq<string>) returns (name: string)
    requires Progress(session, producers, pending, done, outputs)
    requires TopologicalOrder(session, producers, order)
    requires pending != []
    ensures name in pending && session.scan(name).Ok? && Ready(session.scan(name).value, done)
  {
    assert pending[0] in Elements(pending) && pending[0] in Elements(producers);
    assert pending[0] in Elements(order) && pending[0] !in done;
    var k := 0;
    while k < |order| && order[k] in done
      invariant 0 <= k <= |order|
      invariant Elements(order[..k]) <= done
    {
      assert order[..k + 1] == order[..k] + [order[k]];
      k := k + 1;
    }
    assert order[..|order|] == order;
    name := order[k];
    assert name in Elements(order);
    assert name in Elements(pending);
  }

  // The predecessors are the outputs of the dependencies, each once.
  lemma {:induction false} PredecessorNames<T>(outputs: seq<(string, T)>, dependencies: seq<string>)
    ensures var fed := NamesOf(Predecessors(outputs, dependencies));
      && (forall x :: x in fed <==> x in NamesOf(outputs) && x in dependencies)
      && (Distinct(NamesOf(outputs)) ==> Distinct(fed))
  {
    if outputs != [] {
      var name, rest := outputs[0].0, outputs[1..];
      PredecessorNames(rest, dependencies);
      var names, fed := NamesOf(rest), NamesOf(Predecessors(rest, dependencies));
      assert NamesOf(outputs) == [name] + names;
      assert NamesOf(Predecessors(outputs, dependencies)) == if name in dependencies then [name] + fed else fed;
      hide NamesOf, Predecessors, Distinct;
      DistinctCons(name, names);
      DistinctCons(name, fed);
    }
  }

  lemma DistinctCons(name: string, names: seq<string>)
    ensures Distinct([name] + names) <==> name !in names && Distinct(names)
  {
    var longer := [name] + names;
    if Distinct(longer) {
      forall i, j | 0 <= i < j < |names| ensures names[i] != names[j] {
        assert longer[i + 1] != longer[j + 1];
      }
      forall i | 0 <= i < |names| ensures names[i] != name {
        assert longer[0] != longer[i + 1];
      }
    }
  }

  // A session that only refuses names outside the producers and predecessors
  // that are not exactly the dependencies executes everything it is given.
  lemma ExactPredecessorsSuffice<T(!new)>(session: Session<T>, producers: seq<string>)
    requires forall name, predecessors ::
      && name in producers && session.scan(name).Ok?
      && Distinct(NamesOf(predecessors)) && Elements(NamesOf(predecessors)) == Elements(session.scan(name).value)
      ==> session.execute(name, predecessors).Ok?
    ensures ExecutesAll(session, producers)
  {
    hide NamesOf, Predecessors, Distinct, InDependencyOrder, FedByPredecessors;
    forall outputs, name |
      && Produced(session, producers, outputs)
      && name in producers && name !in NamesOf(outputs)
      && session.scan(name).Ok? && Ready(session.scan(name).value, Elements(NamesOf(outputs)))
      ensures session.execute(name, Predecessors(outputs, session.scan(name).value)).Ok?
    {
      var dependencies := session.scan(name).value;
      PredecessorNames(outputs, dependencies);
      assert Elements(NamesOf(Predecessors(outputs, dependencies))) == Elements(dependencies);
    }
  }

  // What the scheduler chooses is executed on what has been produced.
  lemma ChoiceExecutes<T(!new)>(
      session: Session<T>, producers: seq<string>, pending: seq<string>, done: set<string>, outputs: seq<(string, T)>)
    requires Progress(session, producers, pending, done, outputs) && FedByPredecessors(session, outputs)
    requires ExecutesAll(session, producers)
    requires FirstReady(session, pending, done).Chosen?
    ensures var name := FirstReady(session, pending, done).name;
      session.execute(name, Predecessors(outputs, session.scan(name).value)).Ok?
  {
    hide FirstReady, StrictlyAscending, InDependencyOrder, FedByPredecessors;
    var name := FirstReady(session, pending, done).name;
    assert name in Elements(pending);
    assert Produced(session, producers, outputs);
  }

  lemma {:induction false} GreedySucceeds<T(!new)>(
      session: Session<T>, producers: seq<string>, pending: seq<string>, done: set<string>,
      outputs: seq<(string, T)>, order: seq<string>)
    requires Progress(session, producers, pending, done, outputs) && FedByPredecessors(session, outputs)
    requires ExecutesAll(session, producers)
    requires TopologicalOrder(session, producers, order)
    ensures Greedy(session, pending, done, outputs).Ok?
    decreases |pending|
  {
    if pending != [] {
      FirstReadyFinds(session, pending, done);
      forall x | x in pending ensures session.scan(x).Ok? {
        assert x in Elements(pending) && x in Elements(order);
      }
      var ready := SomethingIsReady(session, producers, pending, done, outputs, order);
      var name := FirstReady(session, pending, done).name;
      ChoiceExecutes(session, producers, pending, done, outputs);
      var output := session.execute(name, Predecessors(outputs, session.scan(name).value)).value;
      StepKeepsProgress(session, producers, pending, done, outputs, name, output);
      FedOneMore(session, outputs, name, output);
      GreedySucceeds(session, producers, Without(pending, name), done + {name}, outputs + [(name, output)], order);
    }
  }

  // When no execution fails, a schedule of distinct producers is found exactly
  // when the import graph has a topological order.
  lemma ScheduleExistsIff<T(!new)>(session: Session<T>, producers: seq<string>)
    requires ExecutesAll(session, producers)
    ensures GreedySchedule(session, producers).Ok? <==>
      Distinct(producers) && exists order :: TopologicalOrder(session, producers, order)
  {
    StartsWithProgress(session, producers);
    if GreedySchedule(session, producers).Ok? {
      ScheduleIsLeastTopologicalOrder(session, producers);
    } else if Distinct(producers) && exists order :: TopologicalOrder(session, producers, order) {
      var order :| TopologicalOrder(session, producers, order);
      GreedySucceeds(session, producers, Sort(producers), {}, [], order);
    }
  }

  // ---------- which failure is reported ----------

  // The one-at-a-time scheduler gets as far as `outputs`, and then `name` is the
  // first pending producer that cannot be scanned, no earlier one being ready,
  // or it is the next choice and cannot be executed on its predecessors.
  ghost predicate StopsAt<T>(
      session: Session<T>, producers: seq<string>, outputs: seq<(string, T)>, name: string, message: string)
  {
    var order := NamesOf(outputs);
    var pending := WithoutAll(Sort(producers), order);
    && FedByPredecessors(session, outputs)
    && GreedyRun(session, Sort(producers), {}, order)
    && name in pending
    && match session.scan(name)
       case Err(m) =>
         && m == message
         && FirstReady(session, pending, Elements(order)) == Unreadable(message)
         && name == pending[Scannable(session, pending)]
       case Ok(dependencies) =>
         && FirstReady(session, pending, Elements(order)) == Chosen(name)
         && session.execute(name, Predecessors(outputs, dependencies)) == Err(message)
  }

  lemma {:induction false} WithoutOneMore(pending: seq<string>, names: seq<string>, name: string)
    ensures WithoutAll(pending, names + [name]) == Without(WithoutAll(pending, names), name)
    decreases |names|
  {
    if names == [] {
      assert [name][1..] == [];
      assert WithoutAll(Without(pending, name), []) == Without(pending, name);
    } else {
      assert (names + [name])[1..] == names[1..] + [name];
      WithoutOneMore(Without(pending, names[0]), names[1..], name);
    }
  }

  lemma {:induction false} GreedyStops<T>(
      session: Session<T>, producers: seq<string>, outputs: seq<(string, T)>, message: string)
    returns (outputs': seq<(string, T)>, name: string)
    requires GreedyRun(session, Sort(producers), {}, NamesOf(outputs)) && FedByPredecessors(session, outputs)
    requires Greedy(session, WithoutAll(Sort(producers), NamesOf(outputs)), Elements(NamesOf(outputs)), outputs)
          == Err(Reported(message))
    ensures StopsAt(session, producers, outputs', name, message)
    decreases |WithoutAll(Sort(producers), NamesOf(outputs))|
  {
    var order := NamesOf(outputs);
    var pending, done := WithoutAll(Sort(producers), order), Elements(order);
    FirstReadyFinds(session, pending, done);
    hide Without, WithoutAll, Predecessors, NamesOf, FirstReady, Elements, Sort;
    match FirstReady(session, pending, done)
    case Unreadable(m) =>
      outputs', name := outputs, pending[Scannable(session, pending)];
    case Chosen(chosen) =>
      var result := session.execute(chosen, Predecessors(outputs, session.scan(chosen).value));
      if result.Err? {
        outputs', name := outputs, chosen;
      } else {
        var more := outputs + [(chosen, result.value)];
        FedOneMore(session, outputs, chosen, result.value);
        OneMoreName(outputs, chosen, result.value);
        WithoutOneMore(Sort(producers), order, chosen);
        assert {} + done == done;
        GreedyRunExtends(session, Sort(producers), {}, order, chosen);
        outputs', name := GreedyStops(session, producers, more, message);
      }
  }

  // Along a run of correctly fed choices the schedule goes on from its end.
  lemma {:induction false} GreedyFollows<T>(
      session: Session<T>, pending: seq<string>, done: set<string>, outputs: seq<(string, T)>, more: seq<(string, T)>)
    requires GreedyRun(session, pending, done, NamesOf(more))
    requires FedByPredecessors(session, outputs + more)
    ensures Greedy(session, pending, done, outputs) ==
      Greedy(session, WithoutAll(pending, NamesOf(more)), done + Elements(NamesOf(more)), outputs + more)
    decreases |more|
  {
    var names := NamesOf(more);
    if more == [] {
      assert outputs + more == outputs && done + Elements(names) == done;
    } else {
      var name, output, k := more[0].0, more[0].1, |outputs|;
      assert (outputs + more)[k] == more[0] && (outputs + more)[..k] == outputs;
      assert outputs + [more[0]] + more[1..] == outputs + more;
      assert NamesOf(more[1..]) == names[1..];
      RemoveFirst(pending, done, names);
      hide FirstReady, Without, WithoutAll, Predecessors, NamesOf;
      GreedyFollows(session, Without(pending, name), done + {name}, outputs + [more[0]], more[1..]);
    }
  }

  lemma FedOneMore<T>(session: Session<T>, outputs: seq<(string, T)>, name: string, output: T)
    requires FedByPredecessors(session, outputs)
    requires session.scan(name).Ok?
    requires session.execute(name, Predecessors(outputs, session.scan(name).value)) == Ok(output)
    ensures FedByPredecessors(session, outputs + [(name, output)])
  {
    var outputs' := outputs + [(name, output)];
    assert forall i :: 0 <= i <= |outputs| ==> outputs'[..i] == outputs[..i];
    assert outputs[..|outputs|] == outputs;
  }

  // A failure is reported exactly when the one-at-a-time scheduler, on distinct
  // producers, comes to a producer that fails in that way.
  lemma ReportedFailureIff<T>(session: Session<T>, producers: seq<string>, message: string)
    ensures GreedySchedule(session, producers) == Err(Reported(message)) <==>
      Distinct(producers) && exists outputs, name :: StopsAt(session, producers, outputs, name, message)
  {
    StartsWithProgress(session, producers);
    StartOfSchedule(session, producers);
    hide Greedy, StopsAt, Sort, HasAdjacentDuplicate, Distinct, Elements, WithoutAll, GreedyRun, FedByPredecessors,
         NamesOf;
    if GreedySchedule(session, producers) == Err(Reported(message)) {
      var outputs, name := GreedyStops(session, producers, [], message);
    } else if Distinct(producers) && exists outputs, name :: StopsAt(session, producers, outputs, name, message) {
      var outputs, name :| StopsAt(session, producers, outputs, name, message);
      StopEndsSchedule(session, producers, outputs, name, message);
    }
  }

  lemma StartOfSchedule<T>(session: Session<T>, producers: seq<string>)
    ensures GreedyRun(session, Sort(producers), {}, NamesOf<T>([])) && FedByPredecessors(session, [])
    ensures WithoutAll(Sort(producers), NamesOf<T>([])) == Sort(producers) && Elements(NamesOf<T>([])) == {}
  {
  }

  lemma StopEndsSchedule<T>(
      session: Session<T>, producers: seq<string>, outputs: seq<(string, T)>, name: string, message: string)
    requires StopsAt(session, producers, outputs, name, message)
    ensures Greedy(session, Sort(producers), {}, []) == Err(Reported(message))
  {
    hide FirstReady, WithoutAll, GreedyRun, FedByPredecessors, Predecessors, NamesOf, Elements, Sort, Scannable;
    assert [] + outputs == outputs;
    GreedyFollows(session, Sort(producers), {}, [], outputs);
    assert {} + Elements(NamesOf(outputs)) == Elements(NamesOf(outputs));
  }

  // ---------- cycles ----------

  ghost predicate DependsOn<T>(session: Session<T>, a: string, b: string) {
    session.scan(a).Ok? && b in session.scan(a).value
  }

  // A closed walk in the import graph.
  ghost predicate Cycle<T>(session: Session<T>, walk: seq<string>) {
    && walk != []
    && (forall i :: 0 <= i < |walk| - 1 ==> DependsOn(session, walk[i], walk[i + 1]))
    && DependsOn(session, walk[|walk| - 1], walk[0])
  }

  ghost predicate IsCyclic<T>(session: Session<T>, producers: seq<string>) {
    exists walk :: Cycle(session, walk) && Elements(walk) <= Elements(producers)
  }

  ghost predicate WellScanned<T>(session: Session<T>, producers: seq<string>) {
    forall p :: p in producers ==>
      session.scan(p).Ok? && forall d :: d in session.scan(p).value ==> d in producers
  }

  ghost function Position(order: seq<string>, name: string): (i: nat)
    requires name in order
    ensures i < |order| && order[i] == name
  {
    var i :| 0 <= i < |order| && order[i] == name; i
  }

  lemma DependencyComesEarlier<T>(session: Session<T>, producers: seq<string>, order: seq<string>, a: string, b: string)
    requires TopologicalOrder(session, producers, order)
    requires a in order && DependsOn(session, a, b)
    ensures b in order && Position(order, b) < Position(order, a)
  {
    var i := Position(order, a);
    assert b in Elements(order[..i]);
    var j :| 0 <= j < i && order[..i][j] == b;
    assert order[j] == b;
  }

  lemma {:induction false} WalkDescends<T>(
      session: Session<T>, producers: seq<string>, order: seq<string>, walk: seq<string>, k: nat)
    requires TopologicalOrder(session, producers, order)
    requires k < |walk| && walk[0] in order
    requires forall i :: 0 <= i < |walk| - 1 ==> DependsOn(session, walk[i], walk[i + 1])
    ensures walk[k] in order
    ensures Position(order, walk[k]) <= Position(order, walk[0])
  {
    if k > 0 {
      WalkDescends(session, producers, order, walk, k - 1);
      assert DependsOn(session, walk[k - 1], walk[k - 1 + 1]);
      DependencyComesEarlier(session, producers, order, walk[k - 1], walk[k]);
    }
  }

  lemma CycleHasNoOrder<T>(session: Session<T>, producers: seq<string>, walk: seq<string>, order: seq<string>)
    requires Cycle(session, walk) && Elements(walk) <= Elements(producers)
    ensures !TopologicalOrder(session, producers, order)
  {
    if TopologicalOrder(session, producers, order) {
      assert walk[0] in Elements(walk);
      assert walk[0] in Elements(order);
      WalkDescends(session, producers, order, walk, |walk| - 1);
      DependencyComesEarlier(session, producers, order, walk[|walk| - 1], walk[0]);
    }
  }

  // `p` waits for another pending producer.
  ghost predicate Waits<T>(session: Session<T>, pending: seq<string>, p: string) {
    exists d :: DependsOn(session, p, d) && d in pending
  }

  // Walk along unfinished dependencies for as long as asked.
  lemma {:induction false} UnfinishedWalk<T>(session: Session<T>, pending: seq<string>, n: nat)
    returns (walk: seq<string>)
    requires pending != []
    requires forall p {:trigger Waits(session, pending, p)} :: p in pending ==> Waits(session, pending, p)
    ensures |walk| == n + 1 && Elements(walk) <= Elements(pending)
    ensures forall i :: 0 <= i < n ==> DependsOn(session, walk[i], walk[i + 1])
  {
    if n == 0 {
      walk := [pending[0]];
    } else {
      var shorter := UnfinishedWalk(session, pending, n - 1);
      assert shorter[n - 1] in Elements(shorter);
      assert Waits(session, pending, shorter[n - 1]);
      var d :| DependsOn(session, shorter[n - 1], d) && d in pending;
      walk := shorter + [d];
      forall i | 0 <= i < n ensures DependsOn(session, walk[i], walk[i + 1]) {
        if i < n - 1 { assert DependsOn(session, shorter[i], shorter[i + 1]); }
      }
    }
  }

  // If every pending producer waits for a pending producer, there is a cycle.
  lemma StuckMeansCycle<T>(session: Session<T>, pending: seq<string>) returns (cycle: seq<string>)
    requires pending != []
    requires forall p {:trigger Waits(session, pending, p)} :: p in pending ==> Waits(session, pending, p)
    ensures Cycle(session, cycle) && Elements(cycle) <= Elements(pending)
  {
    var walk := UnfinishedWalk(session, pending, |Elements(pending)|);
    var i, j := Pigeonhole(walk, Elements(pending));
    cycle := walk[i..j];
    forall k | 0 <= k < |cycle| - 1 ensures DependsOn(session, cycle[k], cycle[k + 1]) {
      assert DependsOn(session, walk[i + k], walk[i + k + 1]);
    }
    assert DependsOn(session, walk[j - 1], walk[j - 1 + 1]);
    forall x | x in Elements(cycle) ensures x in Elements(pending) {
      assert x in Elements(walk);
    }
  }

  lemma {:induction false} GreedyFailsOnlyOnCycles<T(!new)>(
      session: Session<T>, producers: seq<string>, pending: seq<string>, done: set<string>, outputs: seq<(string, T)>)
    requires Progress(session, producers, pending, done, outputs) && FedByPredecessors(session, outputs)
    requires ExecutesAll(session, producers) && WellScanned(session, producers)
    requires Greedy(session, pending, done, outputs).Err?
    ensures Greedy(session, pending, done, outputs) == Err(CyclicGraph)
    ensures IsCyclic(session, producers)
    decreases |pending|
  {
    FirstReadyFinds(session, pending, done);
    forall x | x in pending ensures x in producers {
      assert x in Elements(pending);
    }
    var choice := FirstReady(session, pending, done);
    match choice
    case Unreadable(_) =>
    case NoneReady =>
      forall p | p in pending ensures Waits(session, pending, p) {
        var d :| d in session.scan(p).value && d !in done;
        assert d in Elements(producers);
        assert d in Elements(pending);
        assert DependsOn(session, p, d);
      }
      var cycle := StuckMeansCycle(session, pending);
      assert Elements(pending) <= Elements(producers);
    case Chosen(name) =>
      ChoiceExecutes(session, producers, pending, done, outputs);
      var output := session.execute(name, Predecessors(outputs, session.scan(name).value)).value;
      StepKeepsProgress(session, producers, pending, done, outputs, name, output);
      FedOneMore(session, outputs, name, output);
      GreedyFailsOnlyOnCycles(session, producers, Without(pending, name), done + {name}, outputs + [(name, output)]);
  }

  // With readable producers that depend only on producers, and no failing
  // execution, the scheduler reports a cyclic graph exactly when it is cyclic.
  lemma CyclicFailureIff<T(!new)>(session: Session<T>, producers: seq<string>)
    requires Distinct(producers)
    requires ExecutesAll(session, producers) && WellScanned(session, producers)
    ensures GreedySchedule(session, producers) == Err(CyclicGraph) <==> IsCyclic(session, producers)
    ensures GreedySchedule(session, producers).Ok? <==> !IsCyclic(session, producers)
  {
    StartsWithProgress(session, producers);
    if GreedySchedule(session, producers).Ok? {
      ScheduleIsLeastTopologicalOrder(session, producers);
      if IsCyclic(session, producers) {
        var walk :| Cycle(session, walk) && Elements(walk) <= Elements(producers);
        CycleHasNoOrder(session, producers, walk, NamesOf(GreedySchedule(session, producers).value));
      }
    } else {
      GreedyFailsOnlyOnCycles(session, producers, Sort(producers), {}, []);
    }
  }
}
