/** Convergence fails for every use of a handle outside its condition: for each of them there are
    runs that deliver the same messages in different orders and end with different verdicts. */
module ReactorOrder {
  import opened Common
  import opened Guids
  import opened ReactorServer
  import opened ReactorClient
  import opened ReactorSystem
  import opened ReactorInvariant
  import opened ReactorTheorems

  // ---- extending runs ----

  lemma StepReaches(s: System, step: Step)
    requires Reachable(s) && Enabled(s, step)
    ensures Reachable(Apply(s, step))
  {
    hide Enabled, Apply, Initial;
    var writers, states, steps :| IsRun(states, steps) && states[0] == Initial(writers) && states[|steps|] == s;
    ExtendRun(states, steps, step);
    assert (states + [Apply(s, step)])[0] == Initial(writers);
    assert (states + [Apply(s, step)])[|steps + [step]|] == Apply(s, step);
  }

  lemma ExtendRun(states: seq<System>, steps: seq<Step>, step: Step)
    requires IsRun(states, steps) && Enabled(states[|steps|], step)
    ensures IsRun(states + [Apply(states[|steps|], step)], steps + [step])
  {
    hide Enabled, Apply;
    var ts, us := states + [Apply(states[|steps|], step)], steps + [step];
    forall i | 0 <= i < |us| ensures Enabled(ts[i], us[i]) && ts[i + 1] == Apply(ts[i], us[i]) {
      if i < |steps| {
        assert us[i] == steps[i];
        StepOf(states, steps, i);
      }
    }
  }

  // ---- one client with one session ----

  function OnlyId(w: Writer): Guid {
    Guid(w, 1)
  }

  /** The only session so far is the one of client w, who still knows it, and nobody cancelled. */
  predicate Alone(s: System, w: Writer) {
    && w in s.peers && OnlyId(w) in s.peers[w].client.session
    && s.handles.Keys == {OnlyId(w)} && s.cancelled == {}
  }

  /** What the client has read of the server's topics. */
  function ReadSoFar(s: System, w: Writer): (nat, nat)
    requires w in s.peers
  {
    (s.peers[w].progressRead, s.peers[w].repliesRead)
  }

  /** The system with one client, and what its only session has come to. */
  function Single(w: Writer, p: Peer, pending: seq<Request>, arrived: seq<Request>, taken: seq<Request>,
                  handles: map<Guid, Handle>): System {
    System(map[w := p], Server(map[], pending, [], []), handles, arrived, taken, {}, [])
  }

  function Asking(w: Writer, starting: map<Guid, Sample>, log: seq<Request>, read: nat): Peer {
    Peer(Client(OnlyId(w), map[OnlyId(w) := FRESH], log, []), starting, multiset{}, read, 0, 0, 0)
  }

  lemma Started(w: Writer)
    ensures Enabled(Initial({w}), StartSession(w, []))
    ensures Apply(Initial({w}), StartSession(w, []))
            == Single(w, Asking(w, map[OnlyId(w) := []], [], 0), [], [], [], map[])
  {
    assert Initial({w}).peers == map[w := NewPeer(w)];
    assert Register(NewPeer(w).client) == Client(OnlyId(w), map[OnlyId(w) := FRESH], [], []);
  }

  lemma Sent(w: Writer)
    ensures var s := Single(w, Asking(w, map[OnlyId(w) := []], [], 0), [], [], [], map[]);
            && Enabled(s, SendRequest(w, OnlyId(w)))
            && Apply(s, SendRequest(w, OnlyId(w)))
               == Single(w, Asking(w, map[], [(OnlyId(w), [])], 0), [], [], [], map[])
  {
    var starting: map<Guid, Sample> := map[OnlyId(w) := []];
    assert starting - {OnlyId(w)} == map[];
    var log: seq<Request> := [];
    assert log + [(OnlyId(w), [])] == [(OnlyId(w), [])];
  }

  lemma Arrived(w: Writer)
    ensures var r := (OnlyId(w), []);
            var s := Single(w, Asking(w, map[], [r], 0), [], [], [], map[]);
            && Enabled(s, DeliverRequest(w))
            && Apply(s, DeliverRequest(w)) == Single(w, Asking(w, map[], [r], 1), [r], [r], [], map[])
  {
  }

  const NEW_HANDLE := Handle([], [], START_ACTIONS, true, false)

  lemma Taken(w: Writer)
    ensures var r := (OnlyId(w), []);
            var s := Single(w, Asking(w, map[], [r], 1), [r], [r], [], map[]);
            && Enabled(s, TakeSession)
            && Apply(s, TakeSession) == Single(w, Asking(w, map[], [r], 1), [], [r], [r], map[OnlyId(w) := NEW_HANDLE])
  {
  }

  /** A session is started, and its request waits at the server. */
  lemma Waiting(w: Writer) returns (s: System)
    ensures var r := (OnlyId(w), []); s == Single(w, Asking(w, map[], [r], 1), [r], [r], [], map[])
    ensures Reachable(s)
  {
    hide Reachable, Apply, Enabled, Initial;
    InitialReachable({w});
    Started(w);
    StepReaches(Initial({w}), StartSession(w, []));
    var r := (OnlyId(w), []);
    var s1 := Single(w, Asking(w, map[OnlyId(w) := []], [], 0), [], [], [], map[]);
    var s2 := Single(w, Asking(w, map[], [r], 0), [], [], [], map[]);
    Sent(w);
    StepReaches(s1, SendRequest(w, OnlyId(w)));
    Arrived(w);
    StepReaches(s2, DeliverRequest(w));
    s := Single(w, Asking(w, map[], [r], 1), [r], [r], [], map[]);
  }

  /** A session is started, delivered and taken. */
  lemma Opened(w: Writer) returns (s: System)
    ensures Reachable(s) && Alone(s, w) && ReadSoFar(s, w) == (0, 0) && s.handles[OnlyId(w)] == NEW_HANDLE
  {
    hide Reachable, Apply, Enabled;
    var t := Waiting(w);
    Taken(w);
    StepReaches(t, TakeSession);
    var r := (OnlyId(w), []);
    s := Single(w, Asking(w, map[], [r], 1), [], [r], [r], map[OnlyId(w) := NEW_HANDLE]);
  }

  lemma InitialReachable(writers: set<Writer>)
    ensures Reachable(Initial(writers))
  {
    var states, steps := [Initial(writers)], [];
    assert IsRun(states, steps) && states[0] == Initial(writers) && states[|steps|] == Initial(writers);
  }

  lemma PerformStep(s: System, w: Writer)
    requires Alone(s, w) && s.handles[OnlyId(w)].todo != []
    ensures Enabled(s, Perform(OnlyId(w)))
    ensures var t, h := Apply(s, Perform(OnlyId(w))), s.handles[OnlyId(w)];
            && Alone(t, w) && t.peers == s.peers
            && t.handles[OnlyId(w)].todo == h.todo[1..]
            && t.handles[OnlyId(w)].calls == h.calls && t.handles[OnlyId(w)].open == h.open
  {
  }

  /** The handle performs what its last call left it to do. */
  lemma {:induction false} Performed(s: System, w: Writer) returns (t: System)
    requires Reachable(s) && Alone(s, w)
    ensures Reachable(t) && Alone(t, w) && t.peers == s.peers
    ensures var h := s.handles[OnlyId(w)];
            t.handles[OnlyId(w)].todo == [] && t.handles[OnlyId(w)].calls == h.calls
            && t.handles[OnlyId(w)].open == h.open
    decreases |s.handles[OnlyId(w)].todo|
  {
    hide Reachable, Apply, Enabled;
    if s.handles[OnlyId(w)].todo == [] {
      t := s;
    } else {
      PerformStep(s, w);
      StepReaches(s, Perform(OnlyId(w)));
      t := Performed(Apply(s, Perform(OnlyId(w))), w);
    }
  }

  lemma CallStep(s: System, w: Writer, c: Call)
    requires Alone(s, w) && s.handles[OnlyId(w)].open && s.handles[OnlyId(w)].todo == []
    ensures Enabled(s, CallSession(OnlyId(w), c))
    ensures var t := Apply(s, CallSession(OnlyId(w), c));
            && Alone(t, w) && t.peers == s.peers
            && t.handles[OnlyId(w)].calls == s.handles[OnlyId(w)].calls + [c] && t.handles[OnlyId(w)].open == !Closes(c)
  {
  }

  /** Any calls a handle allows can be made before the client has read anything. */
  lemma {:induction false} Called(w: Writer, calls: seq<Call>, open: bool) returns (t: System)
    requires CallsOk(calls, open)
    ensures Reachable(t) && Alone(t, w) && ReadSoFar(t, w) == (0, 0)
    ensures var h := t.handles[OnlyId(w)]; h.calls == calls && h.open == open && h.todo == []
    decreases |calls|
  {
    hide Reachable, Apply, Enabled;
    if calls == [] {
      var s := Opened(w);
      t := Performed(s, w);
    } else {
      var init, c := calls[..|calls| - 1], calls[|calls| - 1];
      var s := Called(w, init, true);
      CallStep(s, w, c);
      StepReaches(s, CallSession(OnlyId(w), c));
      t := Performed(Apply(s, CallSession(OnlyId(w), c)), w);
      assert init + [c] == calls;
    }
  }

  // ---- draining in either order ----

  /** The server and everything but what client w has received is the same. */
  predicate SameServer(s: System, t: System) {
    t.server == s.server && t.handles == s.handles && t.cancelled == s.cancelled
  }

  /** All messages are about the only session. */
  lemma OnlyMessages(s: System, w: Writer)
    requires Reachable(s) && Alone(s, w)
    ensures forall i :: 0 <= i < |s.server.progressLog| ==> s.server.progressLog[i].id == OnlyId(w)
    ensures forall i :: 0 <= i < |s.server.replyLog| ==> s.server.replyLog[i].id == OnlyId(w)
    ensures s.peers[w].progressRead <= |s.server.progressLog| && s.peers[w].repliesRead <= |s.server.replyLog|
  {
    ReachableInv(s);
    PeerInv(s, w);
    assert LogsOk(s);
  }

  lemma ProgressStep(s: System, w: Writer)
    requires Alone(s, w) && s.peers[w].progressRead < |s.server.progressLog|
    requires s.server.progressLog[s.peers[w].progressRead].id == OnlyId(w)
    ensures Enabled(s, ReceiveProgress(w, true))
    ensures var t := Apply(s, ReceiveProgress(w, true));
            && Alone(t, w) && SameServer(s, t)
            && ReadSoFar(t, w) == (s.peers[w].progressRead + 1, s.peers[w].repliesRead)
            && t.peers[w].client.session[OnlyId(w)].progress == s.server.progressLog[s.peers[w].progressRead].mark
  {
  }

  lemma {:induction false} ProgressDrained(s: System, w: Writer) returns (t: System)
    requires Reachable(s) && Alone(s, w) && s.peers[w].progressRead <= |s.server.progressLog|
    ensures Reachable(t) && Alone(t, w) && SameServer(s, t)
    ensures ReadSoFar(t, w) == (|s.server.progressLog|, s.peers[w].repliesRead)
    ensures var log := s.server.progressLog;
            var was, now := s.peers[w].client.session[OnlyId(w)].progress,
                           t.peers[w].client.session[OnlyId(w)].progress;
            now == if s.peers[w].progressRead < |log| then log[|log| - 1].mark else was
    decreases |s.server.progressLog| - s.peers[w].progressRead
  {
    hide Reachable, Apply, Enabled;
    if s.peers[w].progressRead == |s.server.progressLog| {
      t := s;
    } else {
      OnlyMessages(s, w);
      ProgressStep(s, w);
      StepReaches(s, ReceiveProgress(w, true));
      t := ProgressDrained(Apply(s, ReceiveProgress(w, true)), w);
    }
  }

  lemma ReplyStep(s: System, w: Writer)
    requires Alone(s, w) && s.peers[w].repliesRead < |s.server.replyLog|
    requires s.server.replyLog[s.peers[w].repliesRead].id == OnlyId(w)
    ensures Enabled(s, ReceiveReply(w))
    ensures var t := Apply(s, ReceiveReply(w));
            && Alone(t, w) && SameServer(s, t)
            && ReadSoFar(t, w) == (s.peers[w].progressRead, s.peers[w].repliesRead + 1)
            && t.peers[w].client.session[OnlyId(w)].progress == PROG_SUCCESS
  {
  }

  lemma {:induction false} RepliesDrained(s: System, w: Writer) returns (t: System)
    requires Reachable(s) && Alone(s, w) && s.peers[w].repliesRead <= |s.server.replyLog|
    ensures Reachable(t) && Alone(t, w) && SameServer(s, t)
    ensures ReadSoFar(t, w) == (s.peers[w].progressRead, |s.server.replyLog|)
    ensures s.peers[w].repliesRead < |s.server.replyLog| ==>
              t.peers[w].client.session[OnlyId(w)].progress == PROG_SUCCESS
    ensures s.peers[w].repliesRead == |s.server.replyLog| ==> t == s
    decreases |s.server.replyLog| - s.peers[w].repliesRead
  {
    hide Reachable, Apply, Enabled;
    if s.peers[w].repliesRead == |s.server.replyLog| {
      t := s;
    } else {
      OnlyMessages(s, w);
      ReplyStep(s, w);
      StepReaches(s, ReceiveReply(w));
      var u := Apply(s, ReceiveReply(w));
      t := RepliesDrained(u, w);
    }
  }

  // ---- both verdicts ----

  /** The session was used as calls says, has ended uncancelled, and everything has been read. */
  ghost predicate EndedWith(s: System, id: Guid, calls: seq<Call>) {
    && Reachable(s) && id in s.handles && id !in s.cancelled && Drained(s, id.writer)
    && s.handles[id].calls == calls && s.handles[id].todo == []
  }

  ghost predicate EndsAt(s: System, id: Guid, calls: seq<Call>, mark: int) {
    && EndedWith(s, id, calls)
    && id in s.peers[id.writer].client.session && s.peers[id.writer].client.session[id].progress == mark
  }

  lemma LastOfLog(log: seq<ProgressMsg>, id: Guid)
    requires forall i :: 0 <= i < |log| ==> log[i].id == id
    ensures LastMark(Marks(log, id)) == if log == [] then PROG_SENT else log[|log| - 1].mark
  {
  }

  lemma NoRepliesNoLog(log: seq<ReplyMsg>, id: Guid)
    requires Replies(log, id) != []
    ensures log != []
  {
  }

  /** Where a reply does not come last, the same messages end in SUCCESS if the replies are
      delivered last and in FAILED if the marks are. */
  lemma VerdictDependsOnOrder(w: Writer, calls: seq<Call>, open: bool) returns (s: System, t: System)
    requires InRange(calls, open) && EndsWell(calls) && !LastReplyEnds(calls)
    ensures EndsAt(s, OnlyId(w), calls, PROG_SUCCESS) && EndsAt(t, OnlyId(w), calls, PROG_FAILED)
    ensures s.server == t.server
  {
    hide Reachable, Marks, LastMark, Replies;
    var c := Called(w, calls, open);
    EndedSession(c, OnlyId(w));
    OnlyMessages(c, w);
    LastOfLog(c.server.progressLog, OnlyId(w));
    NoRepliesNoLog(c.server.replyLog, OnlyId(w));
    s := MarksThenReplies(c, w);
    t := RepliesThenMarks(c, w);
  }

  lemma MarksThenReplies(c: System, w: Writer) returns (s: System)
    requires Reachable(c) && Alone(c, w) && ReadSoFar(c, w) == (0, 0) && c.server.replyLog != []
    ensures Reachable(s) && Alone(s, w) && SameServer(c, s) && Drained(s, w)
    ensures s.peers[w].client.session[OnlyId(w)].progress == PROG_SUCCESS
  {
    var p := ProgressDrained(c, w);
    s := RepliesDrained(p, w);
  }

  lemma RepliesThenMarks(c: System, w: Writer) returns (t: System)
    requires Reachable(c) && Alone(c, w) && ReadSoFar(c, w) == (0, 0) && c.server.progressLog != []
    ensures Reachable(t) && Alone(t, w) && SameServer(c, t) && Drained(t, w)
    ensures t.peers[w].client.session[OnlyId(w)].progress == c.server.progressLog[|c.server.progressLog| - 1].mark
  {
    var p := RepliesDrained(c, w);
    t := ProgressDrained(p, w);
  }

  /** Convergence, exactly: for calls with marks in 1..99 that end the session, every run with these
      calls settles if and only if they contain no reply or end in one, the destruction of the
      handle aside. */
  lemma ConvergenceExactlyWhen(calls: seq<Call>, open: bool)
    requires InRange(calls, open) && EndsWell(calls)
    ensures (forall s, id :: EndedWith(s, id, calls) ==> Settled(s, id)) <==> LastReplyEnds(calls)
  {
    if LastReplyEnds(calls) {
      forall s, id | EndedWith(s, id, calls) ensures Settled(s, id) {
        ReactorConvergence(s, id);
      }
    } else {
      var s, t := VerdictDependsOnOrder(NO_WRITER, calls, open);
      assert EndedWith(t, OnlyId(NO_WRITER), calls) && !Settled(t, OnlyId(NO_WRITER));
    }
  }

  /** The shortest such use: a reply and then a failure. */
  lemma ReplyThenFailIsAmbiguous(w: Writer, body: Sample) returns (s: System, t: System)
    ensures var calls := [Reply(body), Fail];
            && EndsAt(s, OnlyId(w), calls, PROG_SUCCESS) && EndsAt(t, OnlyId(w), calls, PROG_FAILED)
            && s.server == t.server
  {
    var calls := [Reply(body), Fail];
    assert calls[0].Reply?;
    s, t := VerdictDependsOnOrder(w, calls, false);
  }
}
