// The handshake between a page and the sandboxed frame that runs a program.
// The page waits for READY from its frame, posts INIT once with a private port,
// and settles with the first RESULT on that port, a failed post or a timeout.
// Events arrive in any order, with unrelated messages among them.

module FrameHandshake {
  import opened Prelude

  datatype Kind = Ready | Init | Other

  datatype PortMessage<R> = Progress(stage: string) | Result(result: R) | Noise

  datatype Outcome<R> = Resolved(result: R) | PostFailed | TimedOut(progress: string)

  // ---------- the page's side ----------

  // `posts` counts the INIT messages, `calls` the times the promise settled.
  datatype Parent<R> = Parent(
    token: nat, settled: Option<Outcome<R>>, progress: string,
    listening: bool, timer: bool, port: bool, frame: bool,
    posts: nat, calls: nat)

  const WAITING_FOR_READY := "waiting for frame readiness"
  const WAITING_FOR_INIT := "waiting for child initialization"

  function StartParent<R>(token: nat): Parent<R> {
    Parent(token, None, WAITING_FOR_READY, true, true, true, true, 0, 0)
  }

  function Finish<R>(p: Parent<R>, outcome: Outcome<R>): Parent<R> {
    if p.settled.Some? then p
    else p.(settled := Some(outcome), timer := false, listening := false, port := false, frame := false,
            calls := p.calls + 1)
  }

  // A message event on the page's window. `throws` says whether posting to the
  // frame would fail.
  function OnWindow<R>(p: Parent<R>, fromFrame: bool, kind: Kind, token: nat, throws: bool): Parent<R> {
    if !p.listening || !fromFrame || kind != Ready || token != p.token then p
    else
      var p' := p.(listening := false, progress := WAITING_FOR_INIT);
      if throws then Finish(p', PostFailed) else p'.(posts := p.posts + 1)
  }

  function OnPort<R>(p: Parent<R>, message: PortMessage<R>): Parent<R> {
    if !p.port then p
    else match message
      case Progress(stage) => p.(progress := stage)
      case Noise => p
      case Result(result) => Finish(p, Resolved(result))
  }

  function OnTimer<R>(p: Parent<R>): Parent<R> {
    if !p.timer then p else Finish(p, TimedOut(p.progress))
  }

  // ---------- the frame's side ----------

  datatype Child<R> = Child(token: nat, initialized: bool, actions: nat, posted: seq<PortMessage<R>>)

  function StartChild<R>(token: nat): Child<R> {
    Child(token, false, 0, [])
  }

  // A message event on the frame's window.
  function OnFrame<R>(c: Child<R>, kind: Kind, token: nat, ports: nat): Child<R> {
    if c.initialized || kind != Init || token != c.token || ports != 1 then c
    else c.(initialized := true, actions := c.actions + 1, posted := c.posted + [Progress("initialized")])
  }

  // The action that was started posts on its port.
  function Act<R>(c: Child<R>, message: PortMessage<R>): Child<R> {
    if c.initialized then c.(posted := c.posted + [message]) else c
  }

  // ---------- both together ----------

  // `flying` are INIT messages on their way to the frame, `delivered` the port
  // messages the page has been given, `readied` whether the frame announced
  // itself with the page's token.
  datatype System<R> = System(parent: Parent<R>, child: Child<R>, flying: nat, delivered: nat, readied: bool)

  datatype Event<R> =
    | Window(fromFrame: bool, kind: Kind, token: nat, throws: bool)
    | Timer
    | PortDelivers
    | InitArrives
    | Stray(kind: Kind, token: nat, ports: nat)   // any other message to the frame
    | ChildPosts(message: PortMessage<R>)

  function StartSystem<R>(token: nat): System<R> {
    System(StartParent(token), StartChild(token), 0, 0, false)
  }

  // Only the page knows the token, so no stray message is a proper INIT.
  predicate Unrelated<R>(s: System<R>, kind: Kind, token: nat, ports: nat) {
    kind != Init || token != s.child.token || ports != 1
  }

  function Step<R>(s: System<R>, e: Event<R>): System<R> {
    match e
    case Window(fromFrame, kind, token, throws) =>
      var parent' := OnWindow(s.parent, fromFrame, kind, token, throws);
      s.(parent := parent', flying := s.flying + if parent'.posts > s.parent.posts then 1 else 0,
         readied := s.readied || (fromFrame && kind == Ready && token == s.parent.token))
    case Timer => s.(parent := OnTimer(s.parent))
    case PortDelivers =>
      if s.parent.port && s.delivered < |s.child.posted| then
        s.(parent := OnPort(s.parent, s.child.posted[s.delivered]), delivered := s.delivered + 1)
      else s
    case InitArrives =>
      if s.flying > 0 then s.(child := OnFrame(s.child, Init, s.child.token, 1), flying := s.flying - 1) else s
    case Stray(kind, token, ports) =>
      if Unrelated(s, kind, token, ports) then s.(child := OnFrame(s.child, kind, token, ports)) else s
    case ChildPosts(message) => s.(child := Act(s.child, message))
  }

  function Run<R>(token: nat, events: seq<Event<R>>): System<R> {
    if events == [] then StartSystem(token)
    else Step(Run(token, events[..|events| - 1]), events[|events| - 1])
  }

  // ---------- what every run keeps ----------

  // Until it settles the page holds its timer, port and frame; once settled it
  // has let go of everything.
  ghost predicate Tidy<R>(p: Parent<R>) {
    && (p.settled.None? ==> p.timer && p.port && p.frame && p.calls == 0)
    && (p.settled.Some? ==> !p.timer && !p.port && !p.frame && !p.listening && p.calls == 1)
  }

  // Of the port messages the page was given, only the last can be a RESULT, and
  // the page settled with it exactly if it is one.
  ghost predicate FirstResultWins<R>(s: System<R>) {
    && s.delivered <= |s.child.posted|
    && (forall i :: 0 <= i < s.delivered - 1 ==> !s.child.posted[i].Result?)
    && (s.delivered > 0 && s.child.posted[s.delivered - 1].Result? ==>
          s.parent.settled == Some(Resolved(s.child.posted[s.delivered - 1].result)))
    && (s.parent.settled.Some? && s.parent.settled.value.Resolved? ==>
          s.delivered > 0 && s.child.posted[s.delivered - 1] == Result(s.parent.settled.value.result))
  }

  ghost predicate Sound<R>(s: System<R>, token: nat) {
    && s.parent.token == token && s.child.token == token
    && Tidy(s.parent)
    && s.parent.posts <= 1
    && (s.parent.posts == 1 ==> s.readied && !s.parent.listening)
    && (s.parent.settled == Some(PostFailed) ==> s.readied && s.parent.posts == 0)
    && s.child.actions == (if s.child.initialized then 1 else 0)
    && s.flying + s.child.actions <= s.parent.posts
    && (s.child.posted != [] ==> s.child.initialized)
    && FirstResultWins(s)
  }

  lemma StepKeepsSound<R>(s: System<R>, e: Event<R>, token: nat)
    requires Sound(s, token)
    ensures Sound(Step(s, e), token)
  {
  }

  // What settles an unsettled page, and how: the RESULT at the head of the port,
  // a matching READY while posting fails, or the timer; nothing else does.
  lemma SettlesIff<R>(s: System<R>, e: Event<R>, token: nat, outcome: Outcome<R>)
    requires Sound(s, token) && s.parent.settled.None?
    ensures Step(s, e).parent.settled == Some(outcome) <==>
      match outcome
      case Resolved(result) =>
        e == PortDelivers && s.delivered < |s.child.posted| && s.child.posted[s.delivered] == Result(result)
      case PostFailed => e == Window(true, Ready, token, true) && s.parent.listening
      case TimedOut(progress) => e == Timer && progress == s.parent.progress
  {
  }

  // A listening page answers the matching READY with INIT, unless posting fails,
  // and does not react to any other window message.
  lemma ReadyIsAnswered<R>(s: System<R>, fromFrame: bool, kind: Kind, messageToken: nat, throws: bool, token: nat)
    requires Sound(s, token)
    ensures var s' := Step(s, Window(fromFrame, kind, messageToken, throws));
      var matches := s.parent.listening && fromFrame && kind == Ready && messageToken == token;
      && (matches && !throws ==>
            s'.parent.posts == 1 && s'.flying == s.flying + 1 && s'.parent.settled.None? && !s'.parent.listening)
      && (!matches || throws ==> s'.parent.posts == s.parent.posts && s'.flying == s.flying)
      && (!matches ==> s'.parent == s.parent)
  {
  }

  // The stage last reported among port messages.
  function LastStage<R>(messages: seq<PortMessage<R>>, otherwise: string): string {
    if messages == [] then otherwise
    else
      match messages[|messages| - 1]
      case Progress(stage) => stage
      case _ => LastStage(messages[..|messages| - 1], otherwise)
  }

  // While a page is unsettled, its progress is the last stage the frame reported
  // or, before any, what it is waiting for.
  ghost predicate ProgressIsLatest<R>(s: System<R>) {
    s.parent.settled.None? && s.delivered <= |s.child.posted| ==>
      && s.parent.progress == LastStage(s.child.posted[..s.delivered],
           if s.parent.listening then WAITING_FOR_READY else WAITING_FOR_INIT)
      && (s.parent.listening ==> s.delivered == 0)
  }

  lemma StepKeepsProgress<R>(s: System<R>, e: Event<R>, token: nat)
    requires Sound(s, token) && ProgressIsLatest(s)
    requires s.parent.listening ==> s.parent.posts == 0
    ensures ProgressIsLatest(Step(s, e))
  {
    var s' := Step(s, e);
    assert s'.delivered == s.delivered + 1 && s'.delivered <= |s'.child.posted| ==>
      s'.child.posted[..s'.delivered] == s.child.posted[..s.delivered] + [s.child.posted[s.delivered]];
    assert s'.delivered == s.delivered ==> s'.child.posted[..s.delivered] == s.child.posted[..s.delivered];
  }

  lemma {:induction false} RunReportsProgress<R>(token: nat, events: seq<Event<R>>)
    ensures ProgressIsLatest(Run(token, events))
  {
    if events != [] {
      var shorter := events[..|events| - 1];
      RunReportsProgress(token, shorter);
      RunIsSound(token, shorter);
      StepKeepsProgress(Run(token, shorter), events[|events| - 1], token);
    }
  }

  // From any state of any run in which the page still listens, READY, INIT and a
  // result from the frame complete the handshake.
  lemma HandshakeCompletes<R>(token: nat, events: seq<Event<R>>, result: R)
    requires Run(token, events).parent.listening
    ensures var more := [Window(true, Ready, token, false), InitArrives, ChildPosts(Result(result)),
                         PortDelivers, PortDelivers];
      Run(token, events + more).parent.settled == Some(Resolved(result))
  {
    hide Run, Step;
    var e1, e2, e3 := Window(true, Ready, token, false), InitArrives, ChildPosts(Result(result));
    var more := [e1, e2, e3, PortDelivers, PortDelivers];
    RunIsSound(token, events);
    CompletesFrom(Run(token, events), token, result);
    RunMore(token, events, more, 1);
    RunMore(token, events, more, 2);
    RunMore(token, events, more, 3);
    RunMore(token, events, more, 4);
    RunMore(token, events, more, 5);
    assert events + more[..0] == events && events + more[..5] == events + more;
  }

  lemma CompletesFrom<R>(s: System<R>, token: nat, result: R)
    requires Sound(s, token) && s.parent.listening
    ensures var initialized := Step(Step(s, Window(true, Ready, token, false)), InitArrives);
      var acted := Step(initialized, ChildPosts(Result(result)));
      Step(Step(acted, PortDelivers), PortDelivers).parent.settled == Some(Resolved(result))
  {
    var s1 := Step(s, Window(true, Ready, token, false));
    assert s.child.posted == [] && s.delivered == 0 && !s.child.initialized;
    assert s1.parent.port && s1.parent.settled.None? && s1.flying == 1 && s1.child == s.child && s1.delivered == 0;
    var s2 := Step(s1, InitArrives);
    assert s2.child.posted == [Progress("initialized")] && s2.child.initialized;
    assert s2.parent == s1.parent && s2.delivered == 0;
    hide Sound, FirstResultWins, Tidy;
    ResultIsDelivered(s2, result);
  }

  lemma ResultIsDelivered<R>(s: System<R>, result: R)
    requires s.parent.port && s.parent.settled.None? && s.delivered == 0
    requires s.child.initialized && s.child.posted == [Progress("initialized")]
    ensures Step(Step(Step(s, ChildPosts(Result(result))), PortDelivers), PortDelivers).parent.settled
            == Some(Resolved(result))
  {
    var s3 := Step(s, ChildPosts(Result(result)));
    assert s3.child.posted == [Progress("initialized"), Result(result)] && s3.parent == s.parent;
    var s4 := Step(s3, PortDelivers);
    assert s4.parent.port && s4.parent.settled.None? && s4.delivered == 1 && s4.child == s3.child;
  }

  lemma RunMore<R>(token: nat, events: seq<Event<R>>, more: seq<Event<R>>, k: nat)
    requires 0 < k <= |more|
    ensures Run(token, events + more[..k]) == Step(Run(token, events + more[..k - 1]), more[k - 1])
  {
    var all := events + more[..k];
    assert all[..|all| - 1] == events + more[..k - 1];
  }

  // In every run INIT is posted at most once and only after READY from the
  // frame, the frame starts at most one action, and the page settles at most
  // once, with the first RESULT, a failed post after READY or the timeout.
  lemma {:induction false} RunIsSound<R>(token: nat, events: seq<Event<R>>)
    ensures Sound(Run(token, events), token)
  {
    if events != [] {
      RunIsSound(token, events[..|events| - 1]);
      StepKeepsSound(Run(token, events[..|events| - 1]), events[|events| - 1], token);
    }
  }

  // Once settled the page does not change any more, whatever still arrives.
  lemma {:induction false} SettledIsFinal<R>(token: nat, events: seq<Event<R>>, k: nat)
    requires k <= |events|
    requires Run(token, events[..k]).parent.settled.Some?
    ensures Run(token, events).parent == Run(token, events[..k]).parent
  {
    if k == |events| {
      assert events[..k] == events;
    } else {
      var shorter := events[..|events| - 1];
      assert shorter[..k] == events[..k];
      SettledIsFinal(token, shorter, k);
      RunIsSound(token, shorter);
    }
  }

  // A page that resolved did so through the whole handshake.
  lemma ResolvedMeansHandshake<R>(token: nat, events: seq<Event<R>>)
    ensures var s := Run(token, events);
      s.parent.settled.Some? && s.parent.settled.value.Resolved? ==>
        && s.readied && s.parent.posts == 1 && s.child.actions == 1
        && Result(s.parent.settled.value.result) in s.child.posted
  {
    RunIsSound(token, events);
  }

  // While the timer is armed the page can still settle: the timeout does it.
  lemma TimeoutSettles<R>(token: nat, events: seq<Event<R>>)
    ensures Run(token, events + [Timer]).parent.settled.Some?
  {
    RunIsSound(token, events);
    assert (events + [Timer])[..|events|] == events;
  }

  // ---------- the page and the frame as objects ----------

  class Page<R> {
    const token: nat
    var settled: Option<Outcome<R>>
    var progress: string
    var listening: bool
    var timer: bool
    var port: bool
    var frame: bool
    var posts: nat
    var calls: nat

    ghost function Abstract(): Parent<R>
      reads this
    {
      Parent(token, settled, progress, listening, timer, port, frame, posts, calls)
    }

    constructor (token: nat)
      ensures Abstract() == StartParent(token)
    {
      this.token := token;
      settled, progress := None, WAITING_FOR_READY;
      listening, timer, port, frame := true, true, true, true;
      posts, calls := 0, 0;
    }

    method Settle(outcome: Outcome<R>)
      modifies this
      ensures Abstract() == Finish(old(Abstract()), outcome)
    {
      if settled.Some? {
        return;
      }
      settled := Some(outcome);
      timer := false;
      listening := false;
      port := false;
      frame := false;
      calls := calls + 1;
    }

    method ReceiveWindow(fromFrame: bool, kind: Kind, messageToken: nat, throws: bool)
      modifies this
      ensures Abstract() == OnWindow(old(Abstract()), fromFrame, kind, messageToken, throws)
    {
      if !listening || !fromFrame || kind != Ready || messageToken != token {
        return;
      }
      listening := false;
      progress := WAITING_FOR_INIT;
      if throws {
        Settle(PostFailed);
      } else {
        posts := posts + 1;
      }
    }

    method ReceivePort(message: PortMessage<R>)
      modifies this
      ensures Abstract() == OnPort(old(Abstract()), message)
    {
      if !port {
        return;
      }
      match message {
        case Progress(stage) => progress := stage;
        case Noise =>
        case Result(result) => Settle(Resolved(result));
      }
    }

    method ReceiveTimer()
      modifies this
      ensures Abstract() == OnTimer(old(Abstract()))
    {
      if timer {
        Settle(TimedOut(progress));
      }
    }
  }

  class Frame<R> {
    const token: nat
    var initialized: bool
    var actions: nat
    var posted: seq<PortMessage<R>>

    ghost function Abstract(): Child<R>
      reads this
    {
      Child(token, initialized, actions, posted)
    }

    constructor (token: nat)
      ensures Abstract() == StartChild(token)
    {
      this.token := token;
      initialized, actions, posted := false, 0, [];
    }

    method ReceiveMessage(kind: Kind, messageToken: nat, ports: nat)
      modifies this
      ensures Abstract() == OnFrame(old(Abstract()), kind, messageToken, ports)
    {
      if initialized || kind != Init || messageToken != token || ports != 1 {
        return;
      }
      initialized := true;
      posted := posted + [Progress("initialized")];
      actions := actions + 1;
    }
  }
}
