/** What holds in every reachable state of the reactor system. */
module ReactorTheorems {
  import opened Common
  import opened Guids
  import opened ReactorServer
  import opened ReactorClient
  import opened ReactorSystem
  import opened ReactorInvariant

  // ---- what one handle's calls amount to ----

  function CallMarks(c: Call): seq<ProgressEntry> {
    match c
    case Progress(mark, data) => [(mark, data)]
    case Reply(_) => [(PROG_SUCCESS, [])]
    case Fail => [(PROG_FAILED, [])]
    case Destroy => []
  }

  function CallReplies(c: Call): seq<Sample> {
    if c.Reply? then [c.body] else []
  }

  function CallEntry(o: Option<State>, c: Call): Option<State> {
    match c
    case Progress(mark, _) => EntryStep(o, SetMark(mark))
    case Reply(_) => EntryStep(o, SetSucceed)
    case _ => None
  }

  lemma AfterTwo(done: seq<Action>, a: Action, b: Action)
    ensures var t := done + [a, b];
            && SentMarks(t) == SentMarks(done) + (if a.SendProgress? then [(a.mark, a.data)] else [])
                                               + (if b.SendProgress? then [(b.mark, b.data)] else [])
            && SentReplies(t) == SentReplies(done) + (if a.SendReply? then [a.body] else [])
                                                   + (if b.SendReply? then [b.body] else [])
            && Entry(t) == EntryStep(EntryStep(Entry(done), a), b)
            && (b != Dispose ==> !DisposedAlive(t))
  {
    hide Marks, Replies, SentMarks, SentReplies, Script, Entry;
    DoneAppend(done, a);
    DoneAppend(done + [a], b);
    assert done + [a, b] == done + [a] + [b];
  }

  lemma AfterCall(done: seq<Action>, c: Call)
    ensures SentMarks(done + CallActions(c)) == SentMarks(done) + CallMarks(c)
    ensures SentReplies(done + CallActions(c)) == SentReplies(done) + CallReplies(c)
    ensures Entry(done + CallActions(c)) == CallEntry(Entry(done), c)
    ensures DisposedAlive(done + CallActions(c)) <==> c == Destroy && Entry(done).Some? && Active(Entry(done).value)
  {
    hide Marks, Replies, SentMarks, SentReplies, Script, Entry;
    match c
    case Progress(mark, data) => AfterTwo(done, SetMark(mark), SendProgress(mark, data));
    case Fail => AfterTwo(done, SetMark(PROG_FAILED), SendProgress(PROG_FAILED, []));
    case Destroy => DoneAppend(done, Dispose);
    case Reply(body) => AfterReplyCall(done, body);
  }

  lemma AfterReplyCall(done: seq<Action>, body: Sample)
    ensures SentMarks(done + CallActions(Reply(body))) == SentMarks(done) + [(PROG_SUCCESS, [])]
    ensures SentReplies(done + CallActions(Reply(body))) == SentReplies(done) + [body]
    ensures Entry(done + CallActions(Reply(body))) == EntryStep(Entry(done), SetSucceed)
    ensures !DisposedAlive(done + CallActions(Reply(body)))
  {
    hide Marks, Replies, SentMarks, SentReplies, Script, Entry;
    var a, b, c := SendProgress(PROG_SUCCESS, []), SetSucceed, SendReply(body);
    AfterTwo(done, a, b);
    DoneAppend(done + [a, b], c);
    assert done + CallActions(Reply(body)) == done + [a, b] + [c];
  }

  /** The script of a handle nobody has called yet. */
  lemma StartScript()
    ensures SentMarks(Script([])) == [(PROG_START, [])] && SentReplies(Script([])) == []
    ensures Entry(Script([])) == Some(Starting) && !DisposedAlive(Script([]))
  {
  }

  lemma ScriptStep(calls: seq<Call>)
    requires calls != []
    ensures var init, c := calls[..|calls| - 1], calls[|calls| - 1];
            && SentMarks(Script(calls)) == SentMarks(Script(init)) + CallMarks(c)
            && SentReplies(Script(calls)) == SentReplies(Script(init)) + CallReplies(c)
            && Entry(Script(calls)) == CallEntry(Entry(Script(init)), c)
            && (DisposedAlive(Script(calls)) <==>
                  c == Destroy && Entry(Script(init)).Some? && Active(Entry(Script(init)).value))
  {
    AfterCall(Script(calls[..|calls| - 1]), calls[|calls| - 1]);
  }

  /** Every mark the service author sends is one of a running session. */
  predicate MarksInRange(calls: seq<Call>) {
    forall i :: 0 <= i < |calls| && calls[i].Progress? ==> PROG_START <= calls[i].mark < PROG_SUCCESS
  }

  predicate HasReply(calls: seq<Call>) {
    exists i :: 0 <= i < |calls| && calls[i].Reply?
  }

  predicate InRange(calls: seq<Call>, open: bool) {
    CallsOk(calls, open) && MarksInRange(calls)
  }

  predicate EndsWell(calls: seq<Call>) {
    calls != [] && !calls[|calls| - 1].Progress?
  }

  /** The last call, a final destruction aside, is a reply. */
  predicate RepliedLast(calls: seq<Call>) {
    var n := |calls|;
    n > 0 && (calls[n - 1].Reply? || (calls[n - 1] == Destroy && n > 1 && calls[n - 2].Reply?))
  }

  /** No reply at all, or one with nothing behind it but the destruction of the handle. */
  predicate LastReplyEnds(calls: seq<Call>) {
    HasReply(calls) ==> RepliedLast(calls)
  }

  /** The mark that tells the client how the session ended. */
  function Verdict(calls: seq<Call>): int {
    if HasReply(calls) then PROG_SUCCESS else PROG_FAILED
  }

  /** The mark that is published last. */
  function Outcome(calls: seq<Call>): int {
    if RepliedLast(calls) then PROG_SUCCESS else PROG_FAILED
  }

  lemma ReplyAtEndOrBefore(calls: seq<Call>)
    requires calls != []
    ensures HasReply(calls) <==> HasReply(calls[..|calls| - 1]) || calls[|calls| - 1].Reply?
  {
  }

  lemma {:induction false} ScriptReplies(calls: seq<Call>)
    ensures SentReplies(Script(calls)) == [] <==> !HasReply(calls)
  {
    hide Marks, Replies, SentMarks, SentReplies, Script, Entry;
    if calls == [] {
      StartScript();
    } else {
      ScriptStep(calls);
      ReplyAtEndOrBefore(calls);
      ScriptReplies(calls[..|calls| - 1]);
    }
  }

  lemma InRangeBefore(calls: seq<Call>, open: bool)
    requires InRange(calls, open) && calls != []
    ensures InRange(calls[..|calls| - 1], true)
  {
  }

  /** The state an open handle leaves is succeeded after a reply and otherwise alive; a closed one
      leaves none. */
  lemma {:induction false} ScriptEntry(calls: seq<Call>, open: bool)
    requires InRange(calls, open)
    ensures open && !RepliedLast(calls) ==> Entry(Script(calls)).Some? && Active(Entry(Script(calls)).value)
    ensures open && RepliedLast(calls) ==> Entry(Script(calls)) == Some(Succeed)
    ensures !open ==> Entry(Script(calls)) == None
    ensures DisposedAlive(Script(calls)) <==> !open && calls[|calls| - 1] == Destroy && !RepliedLast(calls)
  {
    hide Marks, Replies, SentMarks, SentReplies, Script, Entry;
    if calls == [] {
      StartScript();
    } else {
      ScriptStep(calls);
      InRangeBefore(calls, open);
      ScriptEntry(calls[..|calls| - 1], true);
    }
  }

  lemma MarkOfReply(calls: seq<Call>)
    requires calls != [] && calls[|calls| - 1].Reply?
    ensures LastMark(SentMarks(Script(calls))) == PROG_SUCCESS
  {
    hide Marks, Replies, SentMarks, SentReplies, Script, Entry;
    ScriptStep(calls);
  }

  /** The last mark of a handle that replied or failed last. */
  lemma ScriptOutcome(calls: seq<Call>, open: bool)
    requires InRange(calls, open) && EndsWell(calls) && (RepliedLast(calls) || calls[|calls| - 1] == Fail)
    ensures LastMark(SentMarks(Script(calls))) == Outcome(calls)
  {
    hide Marks, Replies, SentMarks, SentReplies, Script, Entry;
    if calls[|calls| - 1].Reply? {
      MarkOfReply(calls);
    } else {
      ScriptStep(calls);
      if calls[|calls| - 1] == Destroy {
        MarkOfReply(calls[..|calls| - 1]);
      }
    }
  }

  // ---- convergence ----

  /** Everything published has reached client w. */
  predicate Drained(s: System, w: Writer) {
    && w in s.peers
    && s.peers[w].progressRead == |s.server.progressLog|
    && s.peers[w].repliesRead == |s.server.replyLog|
  }

  /** For every session, cancelled or not, used well or not: a client that has received
      everything and still knows the session holds the last published mark, unless a reply was
      published and reached it after that mark, when it holds SUCCESS. */
  lemma SettledMark(s: System, id: Guid)
    requires Reachable(s) && id in s.handles && Drained(s, id.writer)
    requires id in s.peers[id.writer].client.session
    ensures var progress := s.peers[id.writer].client.session[id].progress;
            || progress == LastMark(Marks(s.server.progressLog, id))
            || (Replies(s.server.replyLog, id) != [] && progress == PROG_SUCCESS)
    ensures s.peers[id.writer].client.session[id].replyReady <==> Replies(s.server.replyLog, id) != []
  {
    hide Marks, Replies, SentMarks, SentReplies, Script, Entry;
    ReachableInv(s);
    PeerInv(s, id.writer);
    SettledEntry(s.peers[id.writer], id, s.server);
  }

  lemma SettledEntry(p: Peer, id: Guid, server: Server)
    requires ClientOk(p, server) && p.progressRead == |server.progressLog| && p.repliesRead == |server.replyLog|
    requires id in p.client.session
    ensures EntryOk(p.client.session[id], id, server.progressLog, server.replyLog)
  {
    hide Marks, Replies, SentMarks, SentReplies, Script, Entry;
    assert server.progressLog[..p.progressRead] == server.progressLog;
    assert server.replyLog[..p.repliesRead] == server.replyLog;
  }

  /** A session nobody cancelled whose handle has ended: whatever the interleaving of topics,
      clients and other sessions, the last mark published for it says whether it was replied to
      last, and the server no longer counts it as alive. */
  lemma EndedSession(s: System, id: Guid)
    requires Reachable(s) && id in s.handles && id !in s.cancelled
    requires var h := s.handles[id]; h.todo == [] && MarksInRange(h.calls) && EndsWell(h.calls)
    ensures LastMark(Marks(s.server.progressLog, id)) == Outcome(s.handles[id].calls)
    ensures Replies(s.server.replyLog, id) != [] <==> HasReply(s.handles[id].calls)
    ensures !AliveIn(s.server.session, id)
  {
    hide Marks, Replies, SentMarks, SentReplies, Script, Entry;
    ReachableInv(s);
    EndedHandle(s.handles[id], id, s.server);
  }

  lemma EndedHandle(h: Handle, id: Guid, server: Server)
    requires HandleOk(h, id, server, false) && h.todo == [] && MarksInRange(h.calls) && EndsWell(h.calls)
    ensures LastMark(Marks(server.progressLog, id)) == Outcome(h.calls)
    ensures Replies(server.replyLog, id) != [] <==> HasReply(h.calls)
    ensures !AliveIn(server.session, id)
  {
    hide Marks, Replies, SentMarks, SentReplies, Script, Entry;
    assert h.done == Script(h.calls) by { assert h.done + [] == h.done; }
    EndedScript(h.calls, h.open);
    ScriptReplies(h.calls);
  }

  /** A handle that has ended is not alive, and the last mark published for it - its own or the
      one disposal adds - is the outcome. */
  lemma EndedScript(calls: seq<Call>, open: bool)
    requires InRange(calls, open) && EndsWell(calls)
    ensures Entry(Script(calls)).None? || Entry(Script(calls)).value == Succeed
    ensures DisposedAlive(Script(calls)) ==> Outcome(calls) == PROG_FAILED
    ensures !DisposedAlive(Script(calls)) ==> LastMark(SentMarks(Script(calls))) == Outcome(calls)
  {
    hide Marks, Replies, SentMarks, SentReplies, Script, Entry;
    ScriptEntry(calls, open);
    if RepliedLast(calls) || calls[|calls| - 1] == Fail {
      ScriptOutcome(calls, open);
    }
  }

  /** The client has dropped the session or holds exactly SUCCESS if it was replied to and FAILED
      if not, and neither side calls it alive. */
  predicate Settled(s: System, id: Guid)
    requires id.writer in s.peers && id in s.handles
  {
    var c, calls := s.peers[id.writer].client, s.handles[id].calls;
    && (id in c.session ==> c.session[id].progress == Verdict(calls))
    && (id in c.session ==> (c.session[id].replyReady <==> HasReply(calls)))
    && !IsAlive(c, true, id) && !IsAlive(c, false, id)
    && !AliveIn(s.server.session, id)
  }

  /** Reactor convergence: once the channels have drained, a session that nobody cancelled and whose
      last reply, if any, came last has settled. */
  lemma ReactorConvergence(s: System, id: Guid)
    requires Reachable(s) && id in s.handles && id !in s.cancelled && Drained(s, id.writer)
    requires var h := s.handles[id];
             h.todo == [] && MarksInRange(h.calls) && EndsWell(h.calls) && LastReplyEnds(h.calls)
    ensures Settled(s, id)
  {
    hide Marks, Replies, SentMarks, SentReplies, Script, Entry;
    EndedSession(s, id);
    if id in s.peers[id.writer].client.session {
      SettledMark(s, id);
    }
  }

  // ---- the terminal mark ----

  predicate Terminal(mark: int) {
    mark < PROG_SENT || mark >= PROG_SUCCESS
  }

  /** At most one terminal mark, and nothing follows it. */
  predicate TerminalOnlyLast(marks: seq<ProgressEntry>) {
    forall i :: 0 <= i < |marks| - 1 ==> !Terminal(marks[i].0)
  }

  predicate NoTerminal(marks: seq<ProgressEntry>) {
    forall i :: 0 <= i < |marks| ==> !Terminal(marks[i].0)
  }

  /** At most one reply, and after it only destruction. */
  predicate OneFinalCall(calls: seq<Call>) {
    forall i, j :: 0 <= i < j < |calls| && calls[i].Reply? ==> calls[j] == Destroy
  }

  lemma {:induction false} ScriptTerminal(calls: seq<Call>, open: bool)
    requires CallsOk(calls, open) && MarksInRange(calls) && OneFinalCall(calls)
    ensures TerminalOnlyLast(SentMarks(Script(calls)))
    ensures !HasReply(calls) && (open || calls[|calls| - 1] == Destroy) ==> NoTerminal(SentMarks(Script(calls)))
  {
    hide Marks, Replies, SentMarks, SentReplies, Script, Entry;
    if calls == [] {
      StartScript();
    } else {
      var init, c := calls[..|calls| - 1], calls[|calls| - 1];
      ScriptStep(calls);
      ReplyAtEndOrBefore(calls);
      TerminalBefore(calls, open);
      ScriptTerminal(init, true);
      if HasReply(init) {
        DestroyAfterReply(calls);
      }
      TerminalStep(SentMarks(Script(init)), c);
    }
  }

  lemma TerminalBefore(calls: seq<Call>, open: bool)
    requires CallsOk(calls, open) && MarksInRange(calls) && OneFinalCall(calls) && calls != []
    ensures var init := calls[..|calls| - 1]; CallsOk(init, true) && MarksInRange(init) && OneFinalCall(init)
  {
  }

  lemma TerminalStep(marks: seq<ProgressEntry>, c: Call)
    requires TerminalOnlyLast(marks) && (c == Destroy || NoTerminal(marks))
    requires c.Progress? ==> PROG_START <= c.mark < PROG_SUCCESS
    ensures TerminalOnlyLast(marks + CallMarks(c))
    ensures NoTerminal(marks) && (c.Progress? || c == Destroy) ==> NoTerminal(marks + CallMarks(c))
  {
  }

  lemma DestroyAfterReply(calls: seq<Call>)
    requires OneFinalCall(calls) && calls != [] && HasReply(calls[..|calls| - 1])
    ensures calls[|calls| - 1] == Destroy
  {
  }

  lemma {:induction false} SentMarksGrow(done: seq<Action>, more: seq<Action>)
    ensures SentMarks(done) <= SentMarks(done + more)
    ensures forall v :: v in SentReplies(done) ==> v in SentReplies(done + more)
    decreases |more|
  {
    hide Marks, Replies, SentMarks, SentReplies, Script, Entry;
    if more == [] {
      assert done + more == done;
    } else {
      SentMarksGrow(done, more[..|more| - 1]);
      assert done + more == (done + more[..|more| - 1]) + [more[|more| - 1]];
      DoneAppend(done + more[..|more| - 1], more[|more| - 1]);
    }
  }

  /** Over every run, at every moment, for a session whose author sends marks in 1..99 and at
      most one final call: at most one terminal mark has been published and it is the last mark
      for that id, even if the session was cancelled. */
  lemma TerminalMarkIsUnique(s: System, id: Guid)
    requires Reachable(s) && id in s.handles
    requires MarksInRange(s.handles[id].calls) && OneFinalCall(s.handles[id].calls)
    ensures TerminalOnlyLast(Marks(s.server.progressLog, id))
  {
    hide Marks, Replies, SentMarks, SentReplies, Script, Entry;
    ReachableInv(s);
    HandleInv(s, id);
    TerminalOfHandle(s.handles[id], id, s.server, id in s.cancelled);
  }

  lemma HandleInv(s: System, id: Guid)
    requires Inv(s) && id in s.handles
    ensures HandleOk(s.handles[id], id, s.server, id in s.cancelled)
  {
  }

  lemma TerminalOfHandle(h: Handle, id: Guid, server: Server, cancelled: bool)
    requires HandleOk(h, id, server, cancelled) && MarksInRange(h.calls) && OneFinalCall(h.calls)
    ensures TerminalOnlyLast(Marks(server.progressLog, id))
  {
    hide Script, SentMarks, SentReplies, Marks, Replies, Entry, DisposedAlive, MarksInRange, OneFinalCall, HasReply;
    ScriptTerminal(h.calls, h.open);
    SentMarksGrow(h.done, h.todo);
    if h.failedOnDispose {
      DisposedAliveIsFinal(h);
      ScriptEntry(h.calls, h.open);
      NoReplyBefore(h.calls, h.open);
    }
  }

  /** With one final call, a handle destroyed alive never replied. */
  lemma NoReplyBefore(calls: seq<Call>, open: bool)
    requires CallsOk(calls, open) && OneFinalCall(calls) && calls != [] && calls[|calls| - 1] == Destroy
    requires !RepliedLast(calls)
    ensures !HasReply(calls)
  {
    hide Marks, Replies, SentMarks, SentReplies, Script, Entry;
    forall i | 0 <= i < |calls| ensures !calls[i].Reply? {
      if i < |calls| - 2 {
        assert calls[|calls| - 2] != Destroy;
      }
    }
  }

  lemma DisposedAliveIsFinal(h: Handle)
    requires ScriptOk(h) && DisposedAlive(h.done)
    ensures h.todo == [] && h.done == Script(h.calls)
  {
    hide Marks, Replies, SentMarks, SentReplies, Script, Entry;
    DisposalComesLast(h.calls, h.open);
    assert Script(h.calls)[|h.done| - 1] == Dispose;
    assert h.done + [] == h.done;
  }

  /** When such a session has ended and nobody cancelled it, exactly one terminal mark was
      published. */
  lemma TerminalMarkIsPublished(s: System, id: Guid)
    requires Reachable(s) && id in s.handles && id !in s.cancelled
    requires var h := s.handles[id];
             h.todo == [] && MarksInRange(h.calls) && OneFinalCall(h.calls) && EndsWell(h.calls)
    ensures var marks := Marks(s.server.progressLog, id);
            marks != [] && Terminal(marks[|marks| - 1].0) && TerminalOnlyLast(marks)
  {
    hide Marks, Replies, SentMarks, SentReplies, Script, Entry, Reachable, PeerOk, ClientOk, HandleOk, RequestsOk;
    TerminalMarkIsUnique(s, id);
    ReachableInv(s);
    EndedSession(s, id);
  }

  // ---- no cross-delivery ----

  lemma {:induction false} RepliesOfPrefix(log: seq<ReplyMsg>, n: nat, id: Guid)
    requires n <= |log|
    ensures Replies(log[..n], id) <= Replies(log, id)
    decreases |log|
  {
    if n < |log| {
      RepliesOfPrefix(log[..|log| - 1], n, id);
      assert log[..|log| - 1][..n] == log[..n];
    } else {
      assert log[..n] == log;
    }
  }

  lemma {:induction false} MessageIsCounted(log: seq<ProgressMsg>, m: ProgressMsg)
    requires m in log
    ensures (m.mark, m.data) in Marks(log, m.id)
  {
    var init, last := log[..|log| - 1], log[|log| - 1];
    if m == last {
      assert Marks(log, m.id)[|Marks(init, m.id)|] == (m.mark, m.data);
    } else {
      assert m in init by {
        var i :| 0 <= i < |log| && log[i] == m;
        assert init[i] == m;
      }
      MessageIsCounted(init, m);
    }
  }

  lemma CallsBefore(calls: seq<Call>)
    requires calls != []
    ensures calls[|calls| - 1] in calls && forall c :: c in calls[..|calls| - 1] ==> c in calls
  {
  }

  /** A script sends only what the calls asked for. */
  lemma {:induction false} ScriptSendsReplies(calls: seq<Call>, v: Sample)
    requires v in SentReplies(Script(calls))
    ensures Reply(v) in calls
  {
    hide Marks, Replies, SentMarks, SentReplies, Script, Entry;
    if calls == [] {
      StartScript();
    } else {
      var init, c := calls[..|calls| - 1], calls[|calls| - 1];
      ScriptStep(calls);
      CallsBefore(calls);
      if v in SentReplies(Script(init)) {
        ScriptSendsReplies(init, v);
      }
    }
  }

  lemma {:induction false} ScriptSendsMarks(calls: seq<Call>, e: ProgressEntry)
    requires e in SentMarks(Script(calls)) && e.1 != []
    ensures Progress(e.0, e.1) in calls
  {
    hide Marks, Replies, SentMarks, SentReplies, Script, Entry;
    if calls == [] {
      StartScript();
    } else {
      var init, c := calls[..|calls| - 1], calls[|calls| - 1];
      ScriptStep(calls);
      CallsBefore(calls);
      if e in SentMarks(Script(init)) {
        ScriptSendsMarks(init, e);
      }
    }
  }

  /** In every reachable state, with any number of clients and sessions: a reply stored under an
      id is one the server's handle of that very id was told to send, and so is every stored
      progress sample; and this client issued the id. */
  lemma NoCrossDelivery(s: System, w: Writer, id: Guid)
    requires Reachable(s) && w in s.peers && id in s.peers[w].client.session
    ensures id.writer == w && IssuedBy(s.peers[w].client, id)
    ensures var d := s.peers[w].client.session[id];
            && (d.replyReady ==> id in s.handles)
            && (d.reply.Some? ==> d.replyReady && Reply(d.reply.value) in s.handles[id].calls)
            && (forall e :: e in d.progressData ==> id in s.handles && Progress(e.0, e.1) in s.handles[id].calls)
  {
    hide Marks, Replies, SentMarks, SentReplies, Script, Entry;
    ReachableInv(s);
    PeerInv(s, w);
    StoredReplyIsOwn(s, s.peers[w], id);
    forall e | e in s.peers[w].client.session[id].progressData
      ensures id in s.handles && Progress(e.0, e.1) in s.handles[id].calls
    {
      StoredProgressIsOwn(s, s.peers[w], id, e);
    }
  }

  lemma StoredReplyIsOwn(s: System, p: Peer, id: Guid)
    requires LogsOk(s) && HandlesOk(s) && ClientOk(p, s.server) && id in p.client.session
    ensures var d := p.client.session[id];
            && (d.replyReady ==> id in s.handles)
            && (d.reply.Some? ==> d.replyReady && Reply(d.reply.value) in s.handles[id].calls)
  {
    hide Marks, Replies, SentMarks, SentReplies, Script, Entry;
    var d := p.client.session[id];
    var seen := s.server.replyLog[..p.repliesRead];
    assert EntryOk(d, id, s.server.progressLog[..p.progressRead], seen);
    if id !in s.handles {
      RepliesOfUnseen(seen, id);
    }
    if d.reply.Some? {
      RepliesOfPrefix(s.server.replyLog, p.repliesRead, id);
      ReplySentByHandle(s, id, d.reply.value);
    }
  }

  lemma StoredProgressIsOwn(s: System, p: Peer, id: Guid, e: ProgressEntry)
    requires LogsOk(s) && HandlesOk(s) && ClientOk(p, s.server) && id in p.client.session
    requires e in p.client.session[id].progressData
    ensures id in s.handles && Progress(e.0, e.1) in s.handles[id].calls
  {
    hide Marks, Replies, SentMarks, SentReplies, Script, Entry;
    var m := ProgressMsg(id, e.0, e.1);
    assert EntryOk(p.client.session[id], id,
                   s.server.progressLog[..p.progressRead], s.server.replyLog[..p.repliesRead]);
    assert m in s.server.progressLog;
    MessageIsCounted(s.server.progressLog, m);
    MarkSentByHandle(s, id, e);
  }

  lemma ReplySentByHandle(s: System, id: Guid, v: Sample)
    requires HandlesOk(s) && id in s.handles && v in Replies(s.server.replyLog, id)
    ensures Reply(v) in s.handles[id].calls
  {
    hide Marks, Replies, SentMarks, SentReplies, Script, Entry;
    var h := s.handles[id];
    assert HandleOk(h, id, s.server, id in s.cancelled);
    SentMarksGrow(h.done, h.todo);
    ScriptSendsReplies(h.calls, v);
  }

  lemma MarkSentByHandle(s: System, id: Guid, e: ProgressEntry)
    requires HandlesOk(s) && id in s.handles && e in Marks(s.server.progressLog, id) && e.1 != []
    ensures Progress(e.0, e.1) in s.handles[id].calls
  {
    hide Marks, Replies, SentMarks, SentReplies, Script, Entry;
    var h := s.handles[id];
    assert HandleOk(h, id, s.server, id in s.cancelled);
    SentMarksGrow(h.done, h.todo);
    ScriptSendsMarks(h.calls, e);
  }

  // ---- requests ----

  /** The arrived requests of one client, in order of arrival. */
  function FromWriter(log: seq<Request>, w: Writer): seq<Request> {
    if log == [] then [] else
    FromWriter(log[..|log| - 1], w) + (if log[|log| - 1].0.writer == w then [log[|log| - 1]] else [])
  }

  /** What arrived from each client is exactly what it published and the server has read. */
  predicate ArrivalsInOrder(s: System) {
    forall w :: w in s.peers ==>
      s.peers[w].requestsRead <= |s.peers[w].client.requestLog| &&
      FromWriter(s.arrived, w) == s.peers[w].client.requestLog[..s.peers[w].requestsRead]
  }

  lemma ArrivalKeepsOrder(s: System, v: Writer)
    requires PeersOk(s) && ArrivalsInOrder(s) && Enabled(s, DeliverRequest(v))
    ensures ArrivalsInOrder(Apply(s, DeliverRequest(v)))
  {
    hide FromWriter;
    var t := Apply(s, DeliverRequest(v));
    var p := s.peers[v];
    var r := p.client.requestLog[p.requestsRead];
    assert PeerOk(p, v, s.server, s.cancelled);
    assert r.0.writer == v;
    assert p.client.requestLog[..p.requestsRead + 1] == p.client.requestLog[..p.requestsRead] + [r];
    forall w | w in t.peers
      ensures FromWriter(t.arrived, w) == t.peers[w].client.requestLog[..t.peers[w].requestsRead]
    {
      assert FromWriter(s.arrived, w) == s.peers[w].client.requestLog[..s.peers[w].requestsRead];
      FromWriterAppend(s.arrived, r, w);
    }
  }

  lemma FromWriterAppend(log: seq<Request>, r: Request, w: Writer)
    ensures FromWriter(log + [r], w) == if r.0.writer == w then FromWriter(log, w) + [r] else FromWriter(log, w)
  {
    hide Marks, Replies, SentMarks, SentReplies, Script, Entry;
    assert (log + [r])[..|log|] == log;
  }

  lemma OtherStepsKeepLogs(s: System, step: Step, w: Writer)
    requires Enabled(s, step) && !step.DeliverRequest? && w in Apply(s, step).peers
    ensures w in s.peers && s.peers[w].client.requestLog <= Apply(s, step).peers[w].client.requestLog
    ensures Apply(s, step).peers[w].requestsRead == s.peers[w].requestsRead
    ensures Apply(s, step).arrived == s.arrived
  {
  }

  lemma OtherStepsKeepOrder(s: System, step: Step)
    requires ArrivalsInOrder(s) && Enabled(s, step) && !step.DeliverRequest?
    ensures ArrivalsInOrder(Apply(s, step))
  {
    hide Marks, Replies, SentMarks, SentReplies, Script, Entry;
    var t := Apply(s, step);
    forall w | w in t.peers
      ensures t.peers[w].requestsRead <= |t.peers[w].client.requestLog|
      ensures FromWriter(t.arrived, w) == t.peers[w].client.requestLog[..t.peers[w].requestsRead]
    {
      OtherStepsKeepLogs(s, step, w);
      var n := s.peers[w].requestsRead;
      assert t.peers[w].client.requestLog[..n] == s.peers[w].client.requestLog[..n];
    }
  }

  lemma StepKeepsOrder(s: System, step: Step)
    requires PeersOk(s) && ArrivalsInOrder(s) && Enabled(s, step)
    ensures ArrivalsInOrder(Apply(s, step))
  {
    hide Marks, Replies, SentMarks, SentReplies, Script, Entry;
    if step.DeliverRequest? {
      ArrivalKeepsOrder(s, step.w);
    } else {
      OtherStepsKeepOrder(s, step);
    }
  }

  lemma {:induction false} RunKeepsOrder(states: seq<System>, steps: seq<Step>, n: nat)
    requires IsRun(states, steps) && Inv(states[0]) && ArrivalsInOrder(states[0]) && n <= |steps|
    ensures ArrivalsInOrder(states[n])
  {
    hide Marks, Replies, SentMarks, SentReplies, Script, Entry;
    if n > 0 {
      RunKeepsOrder(states, steps, n - 1);
      RunKeeps(states, steps, n - 1);
      StepOf(states, steps, n - 1);
      StepKeepsOrder(states[n - 1], steps[n - 1]);
    }
  }

  /** Pending sessions are served once and in order: the requests that arrived are those handed
      out followed by the pending ones, no id arrives twice, each client's requests arrive in
      the order it sent them, and the next pending request never looks like "none". */
  lemma RequestsServedOnceInOrder(s: System)
    requires Reachable(s)
    ensures s.arrived == s.taken + s.server.pending
    ensures DistinctIds(s.arrived)
    ensures ArrivalsInOrder(s)
    ensures s.server.pending != [] ==> s.server.pending[0].0 != UNKNOWN && s.server.pending[0].0 !in s.handles
    ensures forall k :: 0 <= k < |s.taken| ==> s.taken[k].0 in s.handles
  {
    hide Marks, Replies, SentMarks, SentReplies, Script, Entry, Reachable, PeerOk, ClientOk, HandleOk;
    ReachableInv(s);
    ReachableOrder(s);
    if s.server.pending != [] {
      NextPendingIsNew(s);
    }
  }

  lemma ReachableOrder(s: System)
    requires Reachable(s)
    ensures ArrivalsInOrder(s)
  {
    hide Marks, Replies, SentMarks, SentReplies, Script, Entry;
    var writers, states, steps :| IsRun(states, steps) && states[0] == Initial(writers) && states[|steps|] == s;
    InitialInv(writers);
    RunKeepsOrder(states, steps, |steps|);
  }

  // ---- removal is permanent ----

  lemma StepKeepsRemoved(s: System, step: Step, w: Writer, id: Guid)
    requires PeersOk(s) && Enabled(s, step) && Removed(s, w, id)
    ensures Removed(Apply(s, step), w, id)
  {
    hide Marks, Replies, SentMarks, SentReplies, Script, Entry;
    if step.StartSession? {
      assert PeerOk(s.peers[step.w], step.w, s.server, s.cancelled);
    } else {
      OtherStepsKeepRemoved(s, step, w, id);
    }
  }

  lemma OtherStepsKeepRemoved(s: System, step: Step, w: Writer, id: Guid)
    requires Enabled(s, step) && Removed(s, w, id) && !step.StartSession?
    ensures Removed(Apply(s, step), w, id)
  {
  }

  predicate Removed(s: System, w: Writer, id: Guid) {
    w in s.peers && IssuedBy(s.peers[w].client, id) && id !in s.peers[w].client.session
  }

  lemma NextIsRemoved(states: seq<System>, steps: seq<Step>, i: nat, w: Writer, id: Guid)
    requires IsRun(states, steps) && i < |steps| && Inv(states[i]) && Removed(states[i], w, id)
    ensures Removed(states[i + 1], w, id)
  {
    hide Marks, Replies, SentMarks, SentReplies, Script, Entry;
    StepOf(states, steps, i);
    StepKeepsRemoved(states[i], steps[i], w, id);
  }

  lemma {:induction false} RemovedStays(states: seq<System>, steps: seq<Step>, m: nat, n: nat, w: Writer, id: Guid)
    requires IsRun(states, steps) && Inv(states[0]) && m <= n <= |steps| && Removed(states[m], w, id)
    ensures Removed(states[n], w, id)
    decreases n
  {
    hide *;
    if m < n {
      RemovedStays(states, steps, m, n - 1, w, id);
      RunKeeps(states, steps, n - 1);
      NextIsRemoved(states, steps, n - 1, w, id);
    }
  }

  /** An id that a client has dropped - by cancel, disposal or grooming - at any moment of a run
      never reappears there, whatever is delivered and requested later. */
  lemma RemovalIsPermanent(states: seq<System>, steps: seq<Step>, m: nat, n: nat, w: Writer, id: Guid)
    requires IsRun(states, steps) && Reachable(states[0]) && m <= n <= |steps| && Removed(states[m], w, id)
    ensures Removed(states[n], w, id)
  {
    hide Marks, Replies, SentMarks, SentReplies, Script, Entry;
    ReachableInv(states[0]);
    RemovedStays(states, steps, m, n, w, id);
  }

  /** Right after a cancel the id is gone, and it stays gone. */
  lemma CancelIsPermanent(states: seq<System>, steps: seq<Step>, m: nat, n: nat, w: Writer, id: Guid)
    requires IsRun(states, steps) && Reachable(states[0]) && m < n <= |steps| && steps[m] == CancelSession(w, id)
    ensures Removed(states[n], w, id) && !IsAlive(states[n].peers[w].client, true, id)
  {
    hide Marks, Replies, SentMarks, SentReplies, Script, Entry;
    StepOf(states, steps, m);
    CancelRemoves(states[m], w, id);
    RemovalIsPermanent(states, steps, m + 1, n, w, id);
  }

  lemma CancelRemoves(s: System, w: Writer, id: Guid)
    requires Enabled(s, CancelSession(w, id))
    ensures Removed(Apply(s, CancelSession(w, id)), w, id)
  {
  }

  // ---- the server's view ----

  /** In every reachable state the server's isAlive is the history predicate. */
  lemma ServerLivenessInRuns(s: System, id: Guid)
    requires Reachable(s)
    ensures AliveIn(s.server.session, id) <==>
            && (exists i: nat :: StandingStart(s.events, id, i))
            && (exists k: nat :: LatestIsLiveMark(s.events, id, k))
  {
    hide Marks, Replies, SentMarks, SentReplies, Script, Entry;
    ReachableInv(s);
    LivenessByHistory(s.events, id);
  }
}
