/** What becomes of a cancel: it is always sent, and when it helps. */
module ReactorCancels {
  import opened Guids
  import opened ReactorServer
  import opened ReactorClient
  import opened ReactorSystem
  import opened ReactorInvariant
  import opened ReactorTheorems
  import opened ReactorHistory
  import opened ReactorOrder

  /** The step is a cancel of the session, or disposes of one that has not failed. */
  predicate Cancels(s: System, step: Step, id: Guid) {
    || step == CancelSession(id.writer, id)
    || (step == DisposeClientSession(id.writer, id) && Known(s, id) && 0 <= DataOf(s, id).progress <= 100)
  }

  /** The cancel is about to be published or has been. */
  predicate CancelSent(s: System, id: Guid) {
    id.writer in s.peers && (id in s.peers[id.writer].cancelling || id in s.peers[id.writer].client.commandLog)
  }

  predicate SameCommands(p: Peer, q: Peer) {
    q.cancelling == p.cancelling && q.client.commandLog == p.client.commandLog
  }

  lemma OthersKeepCommands(s: System, step: Step, w: Writer)
    requires Enabled(s, step) && w in s.peers
    requires !step.CancelSession? && !step.SendCancel? && !step.DisposeClientSession?
    ensures w in Apply(s, step).peers && SameCommands(s.peers[w], Apply(s, step).peers[w])
  {
    hide Act, ActionEvent, ApplyEvent, CallActions, AliveIn;
    if step.DeliverRequest? || step.DeliverCommand? || step.TakeSession? || step.CallSession? || step.Perform? {
      ServerKeepsCommands(s, step, w);
    } else {
      ClientKeepsCommands(s, step, w);
    }
  }

  lemma ServerKeepsCommands(s: System, step: Step, w: Writer)
    requires Enabled(s, step) && w in s.peers
    requires step.DeliverRequest? || step.DeliverCommand? || step.TakeSession? || step.CallSession? || step.Perform?
    ensures w in Apply(s, step).peers && SameCommands(s.peers[w], Apply(s, step).peers[w])
  {
    hide Act, ActionEvent, ApplyEvent, CallActions, AliveIn;
  }

  lemma ClientKeepsCommands(s: System, step: Step, w: Writer)
    requires Enabled(s, step) && w in s.peers
    requires step.GroomList? || step.StartSession? || step.SendRequest? || step.ReceiveProgress? || step.ReceiveReply?
             || step.GetReply? || step.ReadProgressData?
    ensures w in Apply(s, step).peers && SameCommands(s.peers[w], Apply(s, step).peers[w])
  {
  }

  lemma CancelIsNoted(s: System, step: Step, id: Guid)
    requires Enabled(s, step) && id.writer in s.peers && step.CancelSession?
    ensures CancelSent(Apply(s, step), id) <==> CancelSent(s, id) || Cancels(s, step, id)
  {
    assert Erase(s.peers[step.w].client, step.id).commandLog == s.peers[step.w].client.commandLog;
  }

  lemma SendingKeepsCancel(s: System, step: Step, id: Guid)
    requires Enabled(s, step) && id.writer in s.peers && step.SendCancel?
    ensures CancelSent(Apply(s, step), id) <==> CancelSent(s, id)
  {
    var c := s.peers[step.w].client;
    assert forall j :: j in PublishCancel(c, step.id).commandLog <==> j in c.commandLog || j == step.id;
  }

  lemma DisposalIsNoted(s: System, step: Step, id: Guid)
    requires Enabled(s, step) && id.writer in s.peers && step.DisposeClientSession?
    ensures CancelSent(Apply(s, step), id) <==> CancelSent(s, id) || Cancels(s, step, id)
  {
    var c := s.peers[step.w].client;
    assert forall j :: j in PublishCancel(c, step.id).commandLog <==> j in c.commandLog || j == step.id;
  }

  lemma CancelStep(s: System, step: Step, id: Guid)
    requires Enabled(s, step) && id.writer in s.peers
    ensures CancelSent(Apply(s, step), id) <==> CancelSent(s, id) || Cancels(s, step, id)
  {
    hide Enabled, Apply;
    if step.CancelSession? {
      CancelIsNoted(s, step, id);
    } else if step.SendCancel? {
      SendingKeepsCancel(s, step, id);
    } else if step.DisposeClientSession? {
      DisposalIsNoted(s, step, id);
    } else {
      OthersKeepCommands(s, step, id.writer);
    }
  }

  /** Step i of the run cancels the session. */
  ghost predicate CancelsAt(states: seq<System>, steps: seq<Step>, i: nat, id: Guid)
    requires IsRun(states, steps)
  {
    i < |steps| && Cancels(states[i], steps[i], id)
  }

  /** Cancels are sent, exactly: at every moment of every run a cancel is published or about to be if
      and only if some step before cancelled the session or disposed of it unfailed. */
  lemma {:induction false} CancelSentExactlyWhen(states: seq<System>, steps: seq<Step>, n: nat, id: Guid)
    requires FromStart(states, steps) && n <= |steps| && id.writer in states[n].peers
    ensures CancelSent(states[n], id) <==> exists i: nat :: i < n && CancelsAt(states, steps, i, id)
  {
    hide CancelSent, Cancels, Enabled, Apply;
    if n == 0 {
      NothingSentAtStart(states, steps, id);
    } else {
      StepOf(states, steps, n - 1);
      SamePeers(states[n - 1], steps[n - 1]);
      CancelSentExactlyWhen(states, steps, n - 1, id);
      CancelStep(states[n - 1], steps[n - 1], id);
      assert CancelsAt(states, steps, n - 1, id) <==> Cancels(states[n - 1], steps[n - 1], id);
    }
  }

  lemma NothingSentAtStart(states: seq<System>, steps: seq<Step>, id: Guid)
    requires FromStart(states, steps)
    ensures !CancelSent(states[0], id)
  {
  }

  // ---- at the server ----

  /** Every command the server has read is in its history. */
  predicate CommandsHeard(p: Peer, events: seq<Event>) {
    && p.commandsRead <= |p.client.commandLog|
    && forall j :: 0 <= j < p.commandsRead ==> Cancel(p.client.commandLog[j]) in events
  }

  lemma StillHeard(p: Peer, q: Peer, es: seq<Event>, more: seq<Event>)
    requires CommandsHeard(p, es) && q.commandsRead == p.commandsRead && p.client.commandLog <= q.client.commandLog
    ensures CommandsHeard(q, es + more)
  {
    forall j | 0 <= j < q.commandsRead ensures Cancel(q.client.commandLog[j]) in es + more {
      assert Cancel(p.client.commandLog[j]) in es;
    }
  }

  lemma ClientStepHears(s: System, step: Step, w: Writer)
    requires Enabled(s, step) && w in s.peers && (IsLocal(step) || step.StartSession? || step.SendRequest?
             || step.ReceiveProgress? || step.ReceiveReply?)
    ensures var p, q := s.peers[w], Apply(s, step).peers[w];
            q.commandsRead == p.commandsRead && p.client.commandLog <= q.client.commandLog
    ensures Apply(s, step).events == s.events
  {
    hide Groom, OnProgress, OnReply, TakeReply, TakeProgressData;
    if !step.CancelSession? && !step.SendCancel? && !step.DisposeClientSession? {
      ClientKeepsCommands(s, step, w);
    }
  }

  lemma ServerStepHears(s: System, step: Step, w: Writer)
    requires Enabled(s, step) && w in s.peers
    requires step.DeliverRequest? || step.TakeSession? || step.CallSession? || step.Perform?
    ensures var p, q := s.peers[w], Apply(s, step).peers[w];
            q.commandsRead == p.commandsRead && p.client.commandLog == q.client.commandLog
    ensures s.events <= Apply(s, step).events
  {
    hide Act, ApplyEvent, CallActions, AliveIn;
  }

  lemma CommandIsHeard(s: System, v: Writer, w: Writer)
    requires Enabled(s, DeliverCommand(v)) && w in s.peers && CommandsHeard(s.peers[w], s.events)
    ensures CommandsHeard(Apply(s, DeliverCommand(v)).peers[w], Apply(s, DeliverCommand(v)).events)
  {
    hide ApplyEvent;
    var p, t := s.peers[w], Apply(s, DeliverCommand(v));
    forall j | 0 <= j < t.peers[w].commandsRead ensures Cancel(p.client.commandLog[j]) in t.events {
      if j < p.commandsRead {
        assert Cancel(p.client.commandLog[j]) in s.events;
      }
    }
  }

  lemma HearingStep(s: System, step: Step, w: Writer)
    requires Enabled(s, step) && w in s.peers && CommandsHeard(s.peers[w], s.events)
    ensures w in Apply(s, step).peers && CommandsHeard(Apply(s, step).peers[w], Apply(s, step).events)
  {
    hide Enabled, Apply, CommandsHeard;
    SamePeers(s, step);
    var t := Apply(s, step);
    if step.DeliverCommand? {
      CommandIsHeard(s, step.w, w);
    } else if step.DeliverRequest? || step.TakeSession? || step.CallSession? || step.Perform? {
      ServerStepHears(s, step, w);
      assert t.events == s.events + t.events[|s.events|..];
      StillHeard(s.peers[w], t.peers[w], s.events, t.events[|s.events|..]);
    } else {
      ClientStepHears(s, step, w);
      assert s.events + [] == s.events;
      StillHeard(s.peers[w], t.peers[w], s.events, []);
    }
  }

  lemma {:induction false} HeardThroughout(states: seq<System>, steps: seq<Step>, n: nat, w: Writer)
    requires FromStart(states, steps) && n <= |steps| && w in states[n].peers
    ensures CommandsHeard(states[n].peers[w], states[n].events)
  {
    hide Enabled, Apply, CommandsHeard;
    if n == 0 {
      NothingHeardAtStart(states, steps, w);
    } else {
      StepOf(states, steps, n - 1);
      SamePeers(states[n - 1], steps[n - 1]);
      HeardThroughout(states, steps, n - 1, w);
      HearingStep(states[n - 1], steps[n - 1], w);
    }
  }

  lemma NothingHeardAtStart(states: seq<System>, steps: seq<Step>, w: Writer)
    requires FromStart(states, steps) && w in states[0].peers
    ensures CommandsHeard(states[0].peers[w], states[0].events)
  {
  }

  /** Nothing that client w sends to cancel is still on its way. */
  predicate CommandsDrained(s: System, w: Writer) {
    && w in s.peers && s.peers[w].cancelling == multiset{}
    && s.peers[w].commandsRead == |s.peers[w].client.commandLog|
  }

  /** A cancel helps unless the server starts the session after it: once the commands have arrived,
      the server has heard of every cancel, and still knows the session only if its START came
      later. */
  lemma CancelReachesServer(states: seq<System>, steps: seq<Step>, i: nat, id: Guid)
    requires FromStart(states, steps) && i < |steps| && Cancels(states[i], steps[i], id)
    requires CommandsDrained(states[|steps|], id.writer)
    ensures exists k :: 0 <= k < |states[|steps|].events| && states[|steps|].events[k] == Cancel(id)
    ensures var s := states[|steps|];
            id in s.server.session ==>
              exists j: nat :: StandingStart(s.events, id, j) && Cancel(id) in s.events[..j]
  {
    hide Inv, Enabled, Apply, Cancels, StandingStart;
    var s := states[|steps|];
    assert CancelsAt(states, steps, i, id);
    CancelSentExactlyWhen(states, steps, |steps|, id);
    HeardThroughout(states, steps, |steps|, id.writer);
    StartOfRun(states, steps);
    RunKeeps(states, steps, |steps|);
    var k :| 0 <= k < |s.events| && s.events[k] == Cancel(id);
    if id in s.server.session {
      var j := StartAfterCancel(s, id, k);
    }
  }

  lemma StartAfterCancel(s: System, id: Guid, k: nat) returns (j: nat)
    requires Inv(s) && id in s.server.session && k < |s.events| && s.events[k] == Cancel(id)
    ensures StandingStart(s.events, id, j) && Cancel(id) in s.events[..j]
  {
    hide PeerOk, ClientOk, HandleOk, RequestsOk, Replay;
    PresentByHistory(s.events, id);
    j :| StandingStart(s.events, id, j);
    assert k < j && s.events[..j][k] == Cancel(id);
  }

  // ---- a cancel that does not help ----

  /** A session whose client has cancelled it, and what the server has come to. */
  function WithCancel(w: Writer, cancelling: multiset<Guid>, commands: seq<Guid>, read: nat, server: Server,
                   taken: seq<Request>, handles: map<Guid, Handle>, events: seq<Event>): System {
    var r := (OnlyId(w), []);
    System(map[w := Peer(Client(OnlyId(w), map[], [r], commands), map[], cancelling, 1, read, 0, 0)],
           server, handles, [r], taken, {OnlyId(w)}, events)
  }

  lemma CancelWhileWaiting(w: Writer)
    ensures var id, r := OnlyId(w), (OnlyId(w), []);
            var s := Single(w, Asking(w, map[], [r], 1), [r], [r], [], map[]);
            && Enabled(s, CancelSession(w, id))
            && Apply(s, CancelSession(w, id))
               == WithCancel(w, multiset{id}, [], 0, Server(map[], [r], [], []), [], map[], [])
  {
    var id := OnlyId(w);
    var session: map<Guid, SessionData> := map[id := FRESH];
    assert session - {id} == map[];
    assert multiset{} + multiset{id} == multiset{id};
    var none: set<Guid> := {};
    assert none + {id} == {id};
  }

  lemma CancelIsPublished(w: Writer)
    ensures var id, r := OnlyId(w), (OnlyId(w), []);
            var s := WithCancel(w, multiset{id}, [], 0, Server(map[], [r], [], []), [], map[], []);
            && Enabled(s, SendCancel(w, id))
            && Apply(s, SendCancel(w, id))
               == WithCancel(w, multiset{}, [id], 0, Server(map[], [r], [], []), [], map[], [])
  {
    var id := OnlyId(w);
    assert multiset{id} - multiset{id} == multiset{};
    var none: seq<Guid> := [];
    assert none + [id] == [id];
  }

  lemma CancelIsDelivered(w: Writer)
    ensures var id, r := OnlyId(w), (OnlyId(w), []);
            var s := WithCancel(w, multiset{}, [id], 0, Server(map[], [r], [], []), [], map[], []);
            && Enabled(s, DeliverCommand(w))
            && Apply(s, DeliverCommand(w))
               == WithCancel(w, multiset{}, [id], 1, Server(map[], [r], [], []), [], map[], [Cancel(id)])
  {
    var id := OnlyId(w);
    var none: seq<Event> := [];
    assert none + [Cancel(id)] == [Cancel(id)];
    var sessions: Sessions := map[];
    assert sessions - {id} == sessions;
  }

  lemma DroppedIsTaken(w: Writer)
    ensures var id, r := OnlyId(w), (OnlyId(w), []);
            var s := WithCancel(w, multiset{}, [id], 1, Server(map[], [r], [], []), [], map[], [Cancel(id)]);
            && Enabled(s, TakeSession)
            && Apply(s, TakeSession)
               == WithCancel(w, multiset{}, [id], 1, Server(map[], [], [], []), [r], map[id := NEW_HANDLE],
                             [Cancel(id)])
  {
  }

  lemma DroppedIsStarted(w: Writer)
    ensures var id, r := OnlyId(w), (OnlyId(w), []);
            var s := WithCancel(w, multiset{}, [id], 1, Server(map[], [], [], []), [r], map[id := NEW_HANDLE],
                                [Cancel(id)]);
            && Enabled(s, Perform(id)) && AliveIn(Apply(s, Perform(id)).server.session, id)
            && CommandsDrained(Apply(s, Perform(id)), w) && id in Apply(s, Perform(id)).cancelled
  {
  }

  /** A cancel that arrives while the request still waits at the server is lost: the server takes the
      request and counts the session as alive, although every command has arrived. */
  lemma EarlyCancelIsLost(w: Writer) returns (s: System)
    ensures Reachable(s) && OnlyId(w) in s.cancelled && CommandsDrained(s, w)
    ensures AliveIn(s.server.session, OnlyId(w))
  {
    hide Reachable, Enabled, Apply, CommandsDrained, AliveIn;
    var id, r := OnlyId(w), (OnlyId(w), []);
    var a := Waiting(w);
    CancelWhileWaiting(w);
    StepReaches(a, CancelSession(w, id));
    var b := WithCancel(w, multiset{id}, [], 0, Server(map[], [r], [], []), [], map[], []);
    CancelIsPublished(w);
    StepReaches(b, SendCancel(w, id));
    var c := WithCancel(w, multiset{}, [id], 0, Server(map[], [r], [], []), [], map[], []);
    CancelIsDelivered(w);
    StepReaches(c, DeliverCommand(w));
    var d := WithCancel(w, multiset{}, [id], 1, Server(map[], [r], [], []), [], map[], [Cancel(id)]);
    DroppedIsTaken(w);
    StepReaches(d, TakeSession);
    var e := WithCancel(w, multiset{}, [id], 1, Server(map[], [], [], []), [r], map[id := NEW_HANDLE], [Cancel(id)]);
    DroppedIsStarted(w);
    StepReaches(e, Perform(id));
    s := Apply(e, Perform(id));
  }
}
