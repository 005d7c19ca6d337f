// The bounded channel: a buffer, parked receivers and parked senders. A call
// runs to completion before another starts, so a program using the channel is
// a sequence of calls. Promises are modelled by two tables: for every receive
// call what it resolved to, for every send call whether it has resolved.

module Channel {
  datatype Delivery<V> = Waiting | Value(value: V) | Done

  datatype Call<V> = Send(value: V) | Receive | Close

  datatype State<V> = State(
    capacity: nat,
    buffer: seq<V>,
    receivers: seq<nat>,            // receive calls whose promise is parked
    senders: seq<(nat, V)>,         // send calls parked with their value
    closed: bool,
    deliveries: seq<Delivery<V>>,   // by receive call
    accepted: seq<bool>,            // by send call: has its promise resolved
    sent: seq<V>)                   // by send call

  function Init<V>(capacity: nat): State<V> {
    State(capacity, [], [], [], false, [], [], [])
  }

  // ---------- one call ----------

  function SendCall<V>(s: State<V>, value: V): State<V>
    requires |s.receivers| > 0 ==> s.receivers[0] < |s.deliveries|
  {
    var s' := s.(sent := s.sent + [value]);
    if |s.receivers| > 0 then
      s'.(receivers := s.receivers[1..],
          deliveries := s.deliveries[s.receivers[0] := Value(value)],
          accepted := s.accepted + [true])
    else if |s.buffer| < s.capacity then
      s'.(buffer := s.buffer + [value], accepted := s.accepted + [true])
    else
      s'.(senders := s.senders + [(|s.sent|, value)], accepted := s.accepted + [false])
  }

  function ReceiveCall<V>(s: State<V>): State<V>
    requires |s.senders| > 0 ==> s.senders[0].0 < |s.accepted|
  {
    if |s.buffer| > 0 then
      var s' := s.(buffer := s.buffer[1..], deliveries := s.deliveries + [Value(s.buffer[0])]);
      if |s.senders| > 0 then
        s'.(senders := s.senders[1..],
            buffer := s.buffer[1..] + [s.senders[0].1],
            accepted := s.accepted[s.senders[0].0 := true])
      else s'
    else if s.closed then
      s.(deliveries := s.deliveries + [Done])
    else
      s.(receivers := s.receivers + [|s.deliveries|], deliveries := s.deliveries + [Waiting])
  }

  function EndAll<V>(deliveries: seq<Delivery<V>>, receivers: seq<nat>): (r: seq<Delivery<V>>)
    requires forall i :: 0 <= i < |receivers| ==> receivers[i] < |deliveries|
    ensures |r| == |deliveries|
    decreases |receivers|
  {
    if receivers == [] then deliveries
    else EndAll(deliveries[receivers[0] := Done], receivers[1..])
  }

  function CloseCall<V>(s: State<V>): State<V>
    requires forall i :: 0 <= i < |s.receivers| ==> s.receivers[i] < |s.deliveries|
  {
    s.(closed := true, receivers := [], deliveries := EndAll(s.deliveries, s.receivers))
  }

  // Every parked call has a place in its table.
  ghost predicate Tabled<V>(s: State<V>) {
    && (forall i :: 0 <= i < |s.receivers| ==> s.receivers[i] < |s.deliveries|)
    && (forall i :: 0 <= i < |s.senders| ==> s.senders[i].0 < |s.accepted|)
    && |s.accepted| == |s.sent|
  }

  function Step<V>(s: State<V>, call: Call<V>): (s': State<V>)
    requires Tabled(s)
    ensures Tabled(s')
    ensures s'.capacity == s.capacity
  {
    match call
    case Send(value) => SendCall(s, value)
    case Receive => ReceiveCall(s)
    case Close => CloseCall(s)
  }

  // The state after a sequence of calls on a new channel.
  function Run<V>(capacity: nat, calls: seq<Call<V>>): (s: State<V>)
    ensures Tabled(s) && s.capacity == capacity
  {
    if calls == [] then Init(capacity)
    else Step(Run(capacity, calls[..|calls| - 1]), calls[|calls| - 1])
  }

  // ---------- what every call keeps ----------

  // The parked calls are the latest ones, in call order; everything before
  // them has resolved.
  ghost predicate WellParked<V>(s: State<V>) {
    && |s.accepted| == |s.sent|
    && |s.senders| <= |s.sent|
    && |s.receivers| <= |s.deliveries|
    && (forall i :: 0 <= i < |s.senders| ==>
          var call := |s.sent| - |s.senders| + i; s.senders[i] == (call, s.sent[call]))
    && (forall i :: 0 <= i < |s.receivers| ==> s.receivers[i] == |s.deliveries| - |s.receivers| + i)
    && (forall i :: 0 <= i < |s.sent| ==> (s.accepted[i] <==> i < |s.sent| - |s.senders|))
    && (forall i :: 0 <= i < |s.deliveries| ==>
          (s.deliveries[i].Waiting? <==> i >= |s.deliveries| - |s.receivers|))
  }

  // The values received, in the order of the receive calls.
  function Received<V>(deliveries: seq<Delivery<V>>): seq<V> {
    if deliveries == [] then []
    else
      var last := deliveries[|deliveries| - 1];
      Received(deliveries[..|deliveries| - 1]) + if last.Value? then [last.value] else []
  }

  function ParkedValues<V>(senders: seq<(nat, V)>): (r: seq<V>)
    ensures |r| == |senders|
    ensures forall i :: 0 <= i < |r| ==> r[i] == senders[i].1
  {
    seq(|senders|, i requires 0 <= i < |senders| => senders[i].1)
  }

  // Nothing is lost, duplicated or reordered.
  ghost predicate Conserved<V>(s: State<V>) {
    s.sent == Received(s.deliveries) + s.buffer + ParkedValues(s.senders)
  }

  ghost predicate Disciplined<V>(s: State<V>) {
    && |s.buffer| <= s.capacity
    && (s.receivers != [] ==> s.buffer == [] && s.senders == [])
    && (s.senders != [] ==> |s.buffer| == s.capacity)
    && (s.closed ==> s.receivers == [])
  }

  ghost predicate Good<V>(s: State<V>) {
    WellParked(s) && Conserved(s) && Disciplined(s)
  }

  lemma ReceivedOneMore<V>(deliveries: seq<Delivery<V>>, d: Delivery<V>)
    ensures Received(deliveries + [d]) == Received(deliveries) + if d.Value? then [d.value] else []
  {
    assert (deliveries + [d])[..|deliveries|] == deliveries;
  }

  // Changing a waiting delivery with only waiting ones after it.
  lemma {:induction false} ReceivedAppendsAtFirstWaiting<V>(deliveries: seq<Delivery<V>>, k: nat, d: Delivery<V>)
    requires k < |deliveries|
    requires forall i :: k <= i < |deliveries| ==> deliveries[i].Waiting?
    ensures Received(deliveries[k := d]) == Received(deliveries) + if d.Value? then [d.value] else []
  {
    var last := |deliveries| - 1;
    if k == last {
      assert deliveries[k := d] == deliveries[..last] + [d];
      ReceivedOneMore(deliveries[..last], d);
    } else {
      ReceivedAppendsAtFirstWaiting(deliveries[..last], k, d);
      assert deliveries[k := d][..last] == deliveries[..last][k := d];
    }
  }

  lemma SendKeepsParked<V>(s: State<V>, value: V)
    requires WellParked(s) && Disciplined(s)
    ensures WellParked(SendCall(s, value))
  {
    hide Received;
    var s' := SendCall(s, value);
    if s.receivers != [] {
      assert s'.senders == [];
    } else if |s.buffer| < s.capacity {
      assert s'.senders == [];
    } else {
      assert s'.senders == s.senders + [(|s.sent|, value)];
      forall i | 0 <= i < |s'.senders|
        ensures s'.senders[i] == (|s'.sent| - |s'.senders| + i, s'.sent[|s'.sent| - |s'.senders| + i])
      {
      }
    }
  }

  lemma SendConserves<V>(s: State<V>, value: V)
    requires Good(s)
    ensures Conserved(SendCall(s, value))
  {
    hide Received;
    var s' := SendCall(s, value);
    if s.receivers != [] {
      ReceivedAppendsAtFirstWaiting(s.deliveries, s.receivers[0], Value(value));
      assert ParkedValues(s.senders) == [];
    } else if |s.buffer| < s.capacity {
      assert ParkedValues(s.senders) == [];
    } else {
      assert ParkedValues(s'.senders) == ParkedValues(s.senders) + [value];
    }
  }

  lemma SendKeepsGood<V>(s: State<V>, value: V)
    requires Good(s)
    ensures Good(SendCall(s, value))
  {
    SendKeepsParked(s, value);
    SendConserves(s, value);
  }

  lemma ReceiveKeepsParked<V>(s: State<V>)
    requires WellParked(s) && Disciplined(s)
    ensures WellParked(ReceiveCall(s))
  {
    hide Received;
    var s' := ReceiveCall(s);
    if s.buffer != [] && s.senders != [] {
      assert s'.accepted == s.accepted[|s.sent| - |s.senders| := true];
      forall i | 0 <= i < |s'.senders|
        ensures s'.senders[i] == (|s'.sent| - |s'.senders| + i, s'.sent[|s'.sent| - |s'.senders| + i])
      {
        assert s'.senders[i] == s.senders[i + 1];
      }
    }
  }

  lemma Regroup<V>(received: seq<V>, v: V, buffer: seq<V>, w: V, parked: seq<V>)
    ensures received + ([v] + buffer) + ([w] + parked) == (received + [v]) + (buffer + [w]) + parked
  {
  }

  // A receive that frees room for a parked sender.
  lemma HandoverConserves<V>(s: State<V>)
    requires Conserved(s) && Tabled(s) && s.buffer != [] && s.senders != []
    ensures Conserved(ReceiveCall(s))
  {
    hide Received;
    var v, b, w, rest := s.buffer[0], s.buffer[1..], s.senders[0].1, s.senders[1..];
    ReceivedOneMore(s.deliveries, Value(v));
    assert s.buffer == [v] + b;
    assert ParkedValues(s.senders) == [w] + ParkedValues(rest);
    Regroup(Received(s.deliveries), v, b, w, ParkedValues(rest));
  }

  lemma ReceiveConserves<V>(s: State<V>)
    requires Conserved(s) && Tabled(s)
    ensures Conserved(ReceiveCall(s))
  {
    hide Received;
    if s.buffer == [] {
      ReceivedOneMore(s.deliveries, if s.closed then Done else Waiting);
      assert Received(s.deliveries) + [] == Received(s.deliveries);
    } else if s.senders == [] {
      ReceivedOneMore(s.deliveries, Value(s.buffer[0]));
      assert s.buffer == [s.buffer[0]] + s.buffer[1..];
    } else {
      HandoverConserves(s);
    }
  }

  lemma ReceiveKeepsGood<V>(s: State<V>)
    requires Good(s) && s.capacity >= 1
    ensures Good(ReceiveCall(s))
  {
    ReceiveKeepsParked(s);
    ReceiveConserves(s);
  }

  lemma {:induction false} EndAllEnds<V>(deliveries: seq<Delivery<V>>, receivers: seq<nat>)
    requires |receivers| <= |deliveries|
    requires forall i :: 0 <= i < |receivers| ==> receivers[i] == |deliveries| - |receivers| + i
    requires forall i :: |deliveries| - |receivers| <= i < |deliveries| ==> deliveries[i].Waiting?
    ensures Received(EndAll(deliveries, receivers)) == Received(deliveries)
    ensures forall i :: 0 <= i < |deliveries| ==>
      EndAll(deliveries, receivers)[i] == if i < |deliveries| - |receivers| then deliveries[i] else Done
    decreases |receivers|
  {
    if receivers != [] {
      ReceivedAppendsAtFirstWaiting(deliveries, receivers[0], Done);
      EndAllEnds(deliveries[receivers[0] := Done], receivers[1..]);
    }
  }

  lemma CloseKeepsGood<V>(s: State<V>)
    requires Good(s)
    ensures Good(CloseCall(s))
  {
    hide Received, EndAll, ParkedValues;
    EndAllEnds(s.deliveries, s.receivers);
  }

  // Closing closes the channel, ends every call that waits and changes nothing
  // else.
  lemma CloseEndsReceivers<V>(s: State<V>)
    requires Good(s)
    ensures var s' := Step(s, Close);
      && s'.closed && s'.receivers == []
      && s'.buffer == s.buffer && s'.senders == s.senders && s'.accepted == s.accepted && s'.sent == s.sent
      && |s'.deliveries| == |s.deliveries|
      && forall i :: 0 <= i < |s.deliveries| ==>
           s'.deliveries[i] == if s.deliveries[i].Waiting? then Done else s.deliveries[i]
  {
    hide Received, EndAll;
    EndAllEnds(s.deliveries, s.receivers);
  }

  lemma StepKeepsGood<V>(s: State<V>, call: Call<V>)
    requires Good(s) && s.capacity >= 1
    ensures Good(Step(s, call)) && Step(s, call).capacity == s.capacity
  {
    match call
    case Send(value) => SendKeepsGood(s, value);
    case Receive => ReceiveKeepsGood(s);
    case Close => CloseKeepsGood(s);
  }

  // ---------- every run ----------

  lemma {:induction false} RunIsGood<V>(capacity: nat, calls: seq<Call<V>>)
    requires capacity >= 1
    ensures Good(Run(capacity, calls))
  {
    if calls != [] {
      RunIsGood(capacity, calls[..|calls| - 1]);
      StepKeepsGood(Run(capacity, calls[..|calls| - 1]), calls[|calls| - 1]);
    }
  }

  // ---------- what a run records ----------

  // The values of the send calls, in call order.
  function SentBy<V>(calls: seq<Call<V>>): seq<V> {
    if calls == [] then []
    else SentBy(calls[..|calls| - 1]) + if calls[|calls| - 1].Send? then [calls[|calls| - 1].value] else []
  }

  function ReceiveCalls<V>(calls: seq<Call<V>>): nat {
    if calls == [] then 0
    else ReceiveCalls(calls[..|calls| - 1]) + if calls[|calls| - 1].Receive? then 1 else 0
  }

  // The parked receive calls are the latest ones and the only ones that wait,
  // for a value; on a closed channel there are none.
  ghost predicate ReceiversParked<V>(s: State<V>) {
    && |s.receivers| <= |s.deliveries|
    && (forall i :: 0 <= i < |s.receivers| ==> s.receivers[i] == |s.deliveries| - |s.receivers| + i)
    && (forall i :: 0 <= i < |s.deliveries| ==>
          (s.deliveries[i].Waiting? <==> i >= |s.deliveries| - |s.receivers|))
    && (s.receivers != [] ==> s.buffer == [])
    && (s.closed ==> s.receivers == [])
  }

  lemma StepKeepsReceivers<V>(s: State<V>, call: Call<V>)
    requires Tabled(s) && ReceiversParked(s)
    ensures ReceiversParked(Step(s, call))
  {
    hide Received, EndAll;
    var s' := Step(s, call);
    if call.Close? {
      EndAllEnds(s.deliveries, s.receivers);
      assert s'.receivers == [];
    } else if call.Send? && s.receivers != [] {
      assert s'.receivers == s.receivers[1..] && |s'.deliveries| == |s.deliveries|;
    } else if call.Receive? && s.buffer == [] && !s.closed {
      assert s'.receivers == s.receivers + [|s.deliveries|];
    }
  }

  lemma NothingParked<V>(capacity: nat)
    ensures ReceiversParked(Init<V>(capacity))
  {
  }

  lemma NothingWaits<V>(s: State<V>)
    ensures ReceiversParked(s) && s.closed ==> forall i :: 0 <= i < |s.deliveries| ==> !s.deliveries[i].Waiting?
  {
  }

  lemma StepRecords<V>(s: State<V>, call: Call<V>)
    requires Tabled(s)
    ensures var s' := Step(s, call);
      && s'.sent == s.sent + (if call.Send? then [call.value] else [])
      && |s'.deliveries| == |s.deliveries| + (if call.Receive? then 1 else 0)
      && (s'.closed <==> s.closed || call.Close?)
  {
    hide EndAll;
    assert s.sent + [] == s.sent;
  }

  // For every capacity: every call has its place in the tables, the history is
  // what was sent, and the channel is closed exactly by a close. From then on no
  // receive call waits.
  lemma {:induction false} RunRecords<V>(capacity: nat, calls: seq<Call<V>>)
    ensures var s := Run(capacity, calls);
      && s.sent == SentBy(calls) && |s.accepted| == |SentBy(calls)|
      && |s.deliveries| == ReceiveCalls(calls)
      && (s.closed <==> Close in calls)
      && ReceiversParked(s)
      && (Close in calls ==> forall i :: 0 <= i < |s.deliveries| ==> !s.deliveries[i].Waiting?)
  {
    hide Step, ReceiversParked;
    NothingWaits(Run(capacity, calls));
    if calls == [] {
      NothingParked<V>(capacity);
    } else {
      var shorter, call := calls[..|calls| - 1], calls[|calls| - 1];
      RunRecords(capacity, shorter);
      StepRecords(Run(capacity, shorter), call);
      assert calls == shorter + [call];
      assert Close in calls <==> Close in shorter || call == Close;
      StepKeepsReceivers(Run(capacity, shorter), call);
    }
  }

  // The discipline holds on every run exactly when there is room for a value.
  lemma DisciplineNeedsRoom<V>(capacity: nat, value: V)
    ensures (forall calls: seq<Call<V>> :: Good(Run(capacity, calls))) <==> capacity >= 1
  {
    if capacity >= 1 {
      forall calls: seq<Call<V>> ensures Good(Run(capacity, calls)) {
        RunIsGood(capacity, calls);
      }
    } else {
      var calls := [Send(value), Receive];
      RunTwo(capacity, Send(value), Receive);
      assert !Disciplined(Run(capacity, calls));
    }
  }

  lemma RunTwo<V>(capacity: nat, a: Call<V>, b: Call<V>)
    ensures Run(capacity, [a, b]) == Step(Step(Init(capacity), a), b)
  {
    assert [a, b][..1] == [a] && [a][..0] == [];
    assert Run(capacity, [a]) == Step(Init(capacity), a);
  }

  // Without room for a value a later send overtakes an earlier one.
  lemma NoRoomReorders()
    ensures var s := Run(0, [Send(1), Receive, Send(2)]);
      s.sent == [1, 2] && Received(s.deliveries) == [2]
  {
    hide Run, Received;
    var calls := [Send(1), Receive, Send(2)];
    assert calls[..2] == [Send(1), Receive];
    RunTwo(0, Send(1), Receive);
    RunLast(0, calls);
    var parked: State<int> := State(0, [], [], [(0, 1)], false, [], [false], [1]);
    assert SendCall(Init(0), 1) == parked;
    var both := parked.(receivers := [0], deliveries := [Waiting]);
    assert ReceiveCall(parked) == both;
    assert SendCall(both, 2).deliveries == [] + [Value(2)];
    ReceivedOneMore([], Value(2));
    NothingReceived<int>();
  }

  lemma NothingAtStart<V>(capacity: nat)
    ensures Run<V>(capacity, []).deliveries == []
  {
  }

  lemma RunLast<V>(capacity: nat, calls: seq<Call<V>>)
    requires calls != []
    ensures Run(capacity, calls) == Step(Run(capacity, calls[..|calls| - 1]), calls[|calls| - 1])
  {
  }

  lemma NothingReceived<V>()
    ensures Received<V>([]) == []
  {
  }

  // The i-th receive call that gets a value gets the i-th value sent.
  lemma FirstInFirstOut<V>(capacity: nat, calls: seq<Call<V>>)
    requires capacity >= 1
    ensures Received(Run(capacity, calls).deliveries) <= Run(capacity, calls).sent
  {
    RunIsGood(capacity, calls);
  }

  // Values come out in the order they were sent, on every run, exactly when
  // there is room for a value.
  lemma FirstInFirstOutIff(capacity: nat)
    ensures (forall calls: seq<Call<int>> ::
               Received(Run(capacity, calls).deliveries) <= Run(capacity, calls).sent) <==> capacity >= 1
  {
    hide Run, Received;
    if capacity >= 1 {
      forall calls: seq<Call<int>> ensures Received(Run(capacity, calls).deliveries) <= Run(capacity, calls).sent {
        FirstInFirstOut(capacity, calls);
      }
    } else {
      NoRoomReorders();
      var calls: seq<Call<int>> := [Send(1), Receive, Send(2)];
      var s := Run(capacity, calls);
      assert Received(s.deliveries)[0] == 2 && s.sent[0] == 1;
    }
  }

  // While values are outstanding, a receive call gets the oldest of them.
  lemma ReceiveGetsOldest<V>(s: State<V>)
    requires Good(s) && s.capacity >= 1
    requires |Received(s.deliveries)| < |s.sent|
    ensures Step(s, Receive).deliveries == s.deliveries + [Value(s.sent[|Received(s.deliveries)|])]
  {
    assert s.buffer != [];
  }

  // A promise that has resolved never changes, and no call vanishes.
  ghost predicate Settles<V>(s: State<V>, s': State<V>) {
    && |s.deliveries| <= |s'.deliveries|
    && (forall i :: 0 <= i < |s.deliveries| && !s.deliveries[i].Waiting? ==> s'.deliveries[i] == s.deliveries[i])
    && s.sent <= s'.sent
    && |s.accepted| <= |s'.accepted|
    && (forall i :: 0 <= i < |s.accepted| && s.accepted[i] ==> s'.accepted[i])
    && (s.closed ==> s'.closed)
  }

  lemma StepSettles<V>(s: State<V>, call: Call<V>)
    requires Good(s)
    ensures Settles(s, Step(s, call))
  {
    hide Received;
    if call.Close? {
      EndAllEnds(s.deliveries, s.receivers);
    }
  }

  lemma {:induction false} RunSettles<V>(capacity: nat, calls: seq<Call<V>>, k: nat)
    requires capacity >= 1 && k <= |calls|
    ensures Settles(Run(capacity, calls[..k]), Run(capacity, calls))
  {
    if k == |calls| {
      assert calls[..k] == calls;
    } else {
      var shorter := calls[..|calls| - 1];
      RunSettles(capacity, shorter, k);
      assert shorter[..k] == calls[..k];
      RunIsGood(capacity, shorter);
      StepSettles(Run(capacity, shorter), calls[|calls| - 1]);
    }
  }

  // A call that reports the end does so on a closed channel from which every
  // value sent so far has been received.
  lemma StepDoneMeansDrained<V>(s: State<V>, call: Call<V>, j: nat)
    requires Good(s) && s.capacity >= 1
    requires j < |Step(s, call).deliveries| && Step(s, call).deliveries[j].Done?
    requires j >= |s.deliveries| || !s.deliveries[j].Done?
    ensures Step(s, call).closed
    ensures Received(Step(s, call).deliveries) == Step(s, call).sent
  {
    hide Received;
    StepKeepsGood(s, call);
    if call.Close? {
      EndAllEnds(s.deliveries, s.receivers);
    }
  }

  // Receive call j learns of the end exactly at the k-th call of the run.
  ghost predicate EndsAt<V>(capacity: nat, calls: seq<Call<V>>, j: nat, k: nat)
    requires 0 < k <= |calls|
  {
    var before, after := Run(capacity, calls[..k - 1]), Run(capacity, calls[..k]);
    && (j >= |before.deliveries| || before.deliveries[j].Waiting?)
    && j < |after.deliveries| && after.deliveries[j].Done?
    && after.closed && Received(after.deliveries) == after.sent
  }

  // In every run, each receive call that reports the end was told so by one
  // call, at a moment when the channel was closed and drained.
  lemma {:induction false} DoneMeansDrained<V>(capacity: nat, calls: seq<Call<V>>, j: nat) returns (k: nat)
    requires capacity >= 1
    requires j < |Run(capacity, calls).deliveries| && Run(capacity, calls).deliveries[j].Done?
    ensures 0 < k <= |calls| && EndsAt(capacity, calls, j, k)
  {
    hide Run, Received, Step, Good;
    if calls == [] {
      NothingAtStart<V>(capacity);
    }
    RunLast(capacity, calls);
    var shorter := calls[..|calls| - 1];
    var s := Run(capacity, shorter);
    if j < |s.deliveries| && s.deliveries[j].Done? {
      k := DoneMeansDrained(capacity, shorter, j);
      assert shorter[..k] == calls[..k] && shorter[..k - 1] == calls[..k - 1];
    } else {
      k := |calls|;
      assert calls[..k] == calls;
      RunIsGood(capacity, shorter);
      StepDoneMeansDrained(s, calls[|calls| - 1], j);
      StepSettles(s, calls[|calls| - 1]);
    }
  }

  // ---------- the channel object ----------

  class BoundedChannel<V> {
    const capacity: nat
    var buffer: seq<V>
    var receivers: seq<nat>
    var senders: seq<(nat, V)>
    var closed: bool
    var deliveries: seq<Delivery<V>>
    var accepted: seq<bool>
    ghost var sent: seq<V>

    ghost function Abstract(): State<V>
      reads this
    {
      State(capacity, buffer, receivers, senders, closed, deliveries, accepted, sent)
    }

    constructor (capacity: nat)
      ensures Abstract() == Init(capacity)
    {
      this.capacity := capacity;
      buffer, receivers, senders, closed := [], [], [], false;
      deliveries, accepted, sent := [], [], [];
    }

    method SendValue(value: V)
      requires Tabled(Abstract())
      modifies this
      ensures Abstract() == Step(old(Abstract()), Send(value))
    {
      sent := sent + [value];
      if |receivers| > 0 {
        var resolve := receivers[0];
        receivers := receivers[1..];
        deliveries := deliveries[resolve := Value(value)];
        accepted := accepted + [true];
        return;
      }
      if |buffer| < capacity {
        buffer := buffer + [value];
        accepted := accepted + [true];
        return;
      }
      senders := senders + [(|accepted|, value)];
      accepted := accepted + [false];
    }

    method CloseChannel()
      requires Tabled(Abstract())
      modifies this
      ensures Abstract() == Step(old(Abstract()), Close)
    {
      closed := true;
      while |receivers| > 0
        invariant buffer == old(buffer) && senders == old(senders)
        invariant accepted == old(accepted) && sent == old(sent) && closed
        invariant |deliveries| == |old(deliveries)|
        invariant forall i :: 0 <= i < |receivers| ==> receivers[i] < |deliveries|
        invariant EndAll(deliveries, receivers) == EndAll(old(deliveries), old(receivers))
      {
        var resolve := receivers[0];
        receivers := receivers[1..];
        deliveries := deliveries[resolve := Done];
      }
    }

    // The result is the immediate answer, or Waiting when the call is parked.
    method ReceiveValue() returns (answer: Delivery<V>)
      requires Tabled(Abstract())
      modifies this
      ensures Abstract() == Step(old(Abstract()), Receive)
      ensures deliveries == old(deliveries) + [answer]
    {
      if |buffer| > 0 {
        var value := buffer[0];
        buffer := buffer[1..];
        if |senders| > 0 {
          var (call, parked) := senders[0];
          senders := senders[1..];
          buffer := buffer + [parked];
          accepted := accepted[call := true];
        }
        answer := Value(value);
      } else if closed {
        answer := Done;
      } else {
        receivers := receivers + [|deliveries|];
        answer := Waiting;
      }
      deliveries := deliveries + [answer];
    }
  }
}
