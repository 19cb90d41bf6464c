/** Every step of the reactor system keeps its invariant. */
module ReactorInvariant {
  import opened Common
  import opened Guids
  import opened ReactorServer
  import opened ReactorClient
  import opened ReactorSystem

  // ---- folds over logs ----

  lemma {:induction false} MarksOfUnseen(log: seq<ProgressMsg>, id: Guid)
    requires forall i :: 0 <= i < |log| ==> log[i].id != id
    ensures Marks(log, id) == []
  {
    if log != [] {
      MarksOfUnseen(log[..|log| - 1], id);
    }
  }

  lemma {:induction false} RepliesOfUnseen(log: seq<ReplyMsg>, id: Guid)
    requires forall i :: 0 <= i < |log| ==> log[i].id != id
    ensures Replies(log, id) == []
  {
    if log != [] {
      RepliesOfUnseen(log[..|log| - 1], id);
    }
  }

  lemma MarksAppend(log: seq<ProgressMsg>, m: ProgressMsg, id: Guid)
    ensures Marks(log + [m], id) == Marks(log, id) + (if m.id == id then [(m.mark, m.data)] else [])
  {
  }

  lemma RepliesAppend(log: seq<ReplyMsg>, m: ReplyMsg, id: Guid)
    ensures Replies(log + [m], id) == Replies(log, id) + (if m.id == id then [m.body] else [])
  {
  }

  lemma DoneAppend(done: seq<Action>, a: Action)
    ensures SentMarks(done + [a]) == SentMarks(done) + (if a.SendProgress? then [(a.mark, a.data)] else [])
    ensures SentReplies(done + [a]) == SentReplies(done) + (if a.SendReply? then [a.body] else [])
    ensures Entry(done + [a]) == EntryStep(Entry(done), a)
    ensures DisposedAlive(done + [a]) <==> a == Dispose && Entry(done).Some? && Active(Entry(done).value)
  {
  }

  /** A handle disposes, if at all, as its very last action. */
  lemma {:induction false} DisposalComesLast(calls: seq<Call>, open: bool)
    requires CallsOk(calls, open)
    ensures forall i :: 0 <= i < |Script(calls)| - 1 ==> Script(calls)[i] != Dispose
    ensures open ==> forall i :: 0 <= i < |Script(calls)| ==> Script(calls)[i] != Dispose
  {
    if calls != [] {
      DisposalComesLast(calls[..|calls| - 1], true);
    }
  }

  // ---- what a client stores ----

  lemma OnProgressKeepsEntry(d: SessionData, id: Guid, m: ProgressMsg, decodes: bool,
                             seen: seq<ProgressMsg>, replies: seq<ReplyMsg>)
    requires EntryOk(d, id, seen, replies)
    ensures m.id == id ==>
              var queue := if m.data != [] && decodes then d.progressData + multiset{(m.mark, m.data)}
                           else d.progressData;
              EntryOk(d.(progress := m.mark, progressData := queue), id, seen + [m], replies)
    ensures m.id != id ==> EntryOk(d, id, seen + [m], replies)
  {
    hide Marks, Replies, SentMarks, SentReplies, Script, Entry;
    MarksAppend(seen, m, id);
  }

  lemma OnProgressKeepsEntries(c: Client, m: ProgressMsg, decodes: bool, seen: seq<ProgressMsg>, replies: seq<ReplyMsg>)
    requires EntriesOk(c, seen, replies)
    ensures EntriesOk(OnProgress(c, m, decodes), seen + [m], replies)
  {
    hide Marks, Replies, SentMarks, SentReplies, Script, Entry;
    var t := OnProgress(c, m, decodes);
    forall id | id in t.session ensures EntryOk(t.session[id], id, seen + [m], replies) {
      OnProgressKeepsEntry(c.session[id], id, m, decodes, seen, replies);
    }
  }

  lemma OnReplyKeepsEntries(c: Client, m: ReplyMsg, progress: seq<ProgressMsg>, seen: seq<ReplyMsg>)
    requires EntriesOk(c, progress, seen)
    ensures EntriesOk(OnReply(c, m), progress, seen + [m])
  {
    hide Marks, Replies, SentMarks, SentReplies, Script, Entry;
    var t := OnReply(c, m);
    forall id | id in t.session ensures EntryOk(t.session[id], id, progress, seen + [m]) {
      assert EntryOk(c.session[id], id, progress, seen);
      RepliesAppend(seen, m, id);
    }
  }

  lemma RegisterKeepsEntries(c: Client, progress: seq<ProgressMsg>, replies: seq<ReplyMsg>)
    requires EntriesOk(c, progress, replies)
    requires forall i :: 0 <= i < |progress| ==> progress[i].id != Increment(c.lastId)
    requires forall i :: 0 <= i < |replies| ==> replies[i].id != Increment(c.lastId)
    ensures EntriesOk(Register(c), progress, replies)
  {
    hide Marks, Replies, SentMarks, SentReplies, Script, Entry;
    MarksOfUnseen(progress, Increment(c.lastId));
    RepliesOfUnseen(replies, Increment(c.lastId));
  }

  // ---- steps of one client that leave its request topic alone ----

  /** Replace one client's part of the system. */
  function Local(s: System, w: Writer, p: Peer, cancelled: set<Guid>): System {
    s.(peers := s.peers[w := p], cancelled := cancelled)
  }

  lemma LocalKeepsRequests(s: System, w: Writer, p: Peer, cancelled: set<Guid>)
    requires RequestsOk(s) && w in s.peers
    requires p.client.requestLog == s.peers[w].client.requestLog
    requires p.requestsRead == s.peers[w].requestsRead
    ensures RequestsOk(Local(s, w, p, cancelled))
  {
  }

  lemma LocalKeepsPeers(s: System, w: Writer, p: Peer, cancelled: set<Guid>)
    requires PeersOk(s) && PeerOk(p, w, s.server, cancelled) && s.cancelled <= cancelled
    ensures PeersOk(Local(s, w, p, cancelled))
  {
  }

  lemma LocalKeepsHandles(s: System, w: Writer, p: Peer, cancelled: set<Guid>)
    requires HandlesOk(s) && s.cancelled <= cancelled
    ensures HandlesOk(Local(s, w, p, cancelled))
  {
  }

  lemma LocalKeepsClients(s: System, w: Writer, p: Peer, cancelled: set<Guid>)
    requires ClientsOk(s) && ClientOk(p, s.server)
    ensures ClientsOk(Local(s, w, p, cancelled))
  {
  }

  lemma LocalStep(s: System, w: Writer, p: Peer, cancelled: set<Guid>)
    requires Inv(s) && w in s.peers && s.cancelled <= cancelled
    requires PeerOk(p, w, s.server, cancelled) && ClientOk(p, s.server)
    requires p.client.requestLog == s.peers[w].client.requestLog
    requires p.requestsRead == s.peers[w].requestsRead
    ensures Inv(Local(s, w, p, cancelled))
  {
    hide Marks, Replies, SentMarks, SentReplies, Script, Entry;
    LocalKeepsRequests(s, w, p, cancelled);
    LocalKeepsPeers(s, w, p, cancelled);
    LocalKeepsHandles(s, w, p, cancelled);
    LocalKeepsClients(s, w, p, cancelled);
  }

  /** Values stored under the sessions, and what has been read of the server's topics, do not
      matter to the peer's bookkeeping. */
  lemma PeerAfterReceipt(p: Peer, q: Peer, w: Writer, server: Server, cancelled: set<Guid>)
    requires PeerOk(p, w, server, cancelled)
    requires q == p.(client := p.client.(session := q.client.session),
                     progressRead := q.progressRead, repliesRead := q.repliesRead)
    requires q.client.session.Keys == p.client.session.Keys
    requires q.progressRead <= |server.progressLog| && q.repliesRead <= |server.replyLog|
    ensures PeerOk(q, w, server, cancelled)
  {
  }

  lemma ClientAfterProgress(p: Peer, server: Server, decodes: bool)
    requires ClientOk(p, server) && p.progressRead < |server.progressLog|
    ensures ClientOk(p.(client := OnProgress(p.client, server.progressLog[p.progressRead], decodes),
                        progressRead := p.progressRead + 1), server)
  {
    hide Marks, Replies, SentMarks, SentReplies, Script, Entry;
    var seen, m := server.progressLog[..p.progressRead], server.progressLog[p.progressRead];
    assert server.progressLog[..p.progressRead + 1] == seen + [m];
    OnProgressKeepsEntries(p.client, m, decodes, seen, server.replyLog[..p.repliesRead]);
  }

  lemma ClientAfterReply(p: Peer, server: Server)
    requires ClientOk(p, server) && p.repliesRead < |server.replyLog|
    ensures ClientOk(p.(client := OnReply(p.client, server.replyLog[p.repliesRead]),
                        repliesRead := p.repliesRead + 1), server)
  {
    hide Marks, Replies, SentMarks, SentReplies, Script, Entry;
    var seen, m := server.replyLog[..p.repliesRead], server.replyLog[p.repliesRead];
    assert server.replyLog[..p.repliesRead + 1] == seen + [m];
    OnReplyKeepsEntries(p.client, m, server.progressLog[..p.progressRead], seen);
  }

  predicate IsLocal(step: Step) {
    step.GroomList? || step.CancelSession? || step.SendCancel? || step.DisposeClientSession? ||
    step.GetReply? || step.ReadProgressData?
  }

  predicate SessionsShrink(c: Client, n: Client) {
    forall id :: id in n.session ==>
      && id in c.session
      && var d, e := c.session[id], n.session[id];
         d.progress == e.progress && d.replyReady == e.replyReady &&
         e.progressData <= d.progressData && (e.reply == d.reply || e.reply == None)
  }

  lemma LocalStepShrinks(s: System, step: Step)
    requires IsLocal(step) && Enabled(s, step)
    ensures SessionsShrink(s.peers[step.w].client, Apply(s, step).peers[step.w].client)
  {
  }

  /** These steps only remove sessions, mark replies as read, drop progress entries, or cancel. */
  lemma PeerAfterLocal(p: Peer, q: Peer, w: Writer, server: Server, cancelled: set<Guid>, cancelled': set<Guid>)
    requires PeerOk(p, w, server, cancelled) && ClientOk(p, server) && cancelled <= cancelled'
    requires q == p.(client := p.client.(session := q.client.session, commandLog := q.client.commandLog),
                     cancelling := q.cancelling)
    requires SessionsShrink(p.client, q.client)
    requires forall id :: id in q.cancelling ==> id in cancelled'
    requires p.client.commandLog == q.client.commandLog ||
             exists id :: id in cancelled' && q.client.commandLog == p.client.commandLog + [id]
    ensures PeerOk(q, w, server, cancelled') && ClientOk(q, server)
  {
    hide Marks, Replies, SentMarks, SentReplies, Script, Entry;
    var progress, replies := server.progressLog[..p.progressRead], server.replyLog[..p.repliesRead];
    forall id | id in q.client.session ensures EntryOk(q.client.session[id], id, progress, replies) {
      assert EntryOk(p.client.session[id], id, progress, replies);
    }
  }

  lemma LocalStepPeer(s: System, step: Step)
    requires IsLocal(step) && Enabled(s, step)
    requires PeerOk(s.peers[step.w], step.w, s.server, s.cancelled) && ClientOk(s.peers[step.w], s.server)
    ensures var t := Apply(s, step);
            && s.cancelled <= t.cancelled
            && t == Local(s, step.w, t.peers[step.w], t.cancelled)
            && PeerOk(t.peers[step.w], step.w, s.server, t.cancelled) && ClientOk(t.peers[step.w], s.server)
            && t.peers[step.w].client.requestLog == s.peers[step.w].client.requestLog
            && t.peers[step.w].requestsRead == s.peers[step.w].requestsRead
  {
    hide Marks, Replies, SentMarks, SentReplies, Script, Entry;
    var t := Apply(s, step);
    LocalStepShrinks(s, step);
    PeerAfterLocal(s.peers[step.w], t.peers[step.w], step.w, s.server, s.cancelled, t.cancelled);
  }

  lemma LocalStepKeeps(s: System, step: Step)
    requires Inv(s) && IsLocal(step) && Enabled(s, step)
    ensures Inv(Apply(s, step))
  {
    hide Marks, Replies, SentMarks, SentReplies, Script, Entry;
    LocalStepPeer(s, step);
    LocalStep(s, step.w, Apply(s, step).peers[step.w], Apply(s, step).cancelled);
  }

  // ---- starting a session ----

  /** No message can speak of an id that its client has not issued. */
  lemma OnlyIssuedIdsAreHandled(s: System, id: Guid)
    requires PeersOk(s) && RequestsOk(s) && id in s.handles
    ensures id.writer in s.peers && IssuedBy(s.peers[id.writer].client, id)
  {
    hide Marks, Replies, SentMarks, SentReplies, Script, Entry;
    var k :| 0 <= k < |s.taken| && s.taken[k].0 == id;
    assert s.arrived[k] == s.taken[k];
    assert Delivered(s, s.arrived[k]);
  }

  lemma FreshIdIsUnseen(s: System, w: Writer)
    requires PeersOk(s) && RequestsOk(s) && w in s.peers && s.peers[w].client.lastId.sequence < WORD - 1
    ensures Increment(s.peers[w].client.lastId) !in s.handles
  {
    hide Marks, Replies, SentMarks, SentReplies, Script, Entry;
    var id := Increment(s.peers[w].client.lastId);
    assert PeerOk(s.peers[w], w, s.server, s.cancelled);
    if id in s.handles {
      OnlyIssuedIdsAreHandled(s, id);
    }
  }

  lemma PeerAfterStart(p: Peer, w: Writer, server: Server, cancelled: set<Guid>, request: Sample)
    requires PeerOk(p, w, server, cancelled) && p.client.lastId.sequence < WORD - 1
    ensures var c := Register(p.client);
            PeerOk(p.(client := c, starting := p.starting[c.lastId := request]), w, server, cancelled)
  {
  }

  lemma StartSessionKeeps(s: System, w: Writer, request: Sample)
    requires Inv(s) && Enabled(s, StartSession(w, request))
    ensures Inv(Apply(s, StartSession(w, request)))
  {
    hide Marks, Replies, SentMarks, SentReplies, Script, Entry;
    var p := s.peers[w];
    var c := Register(p.client);
    var q := p.(client := c, starting := p.starting[c.lastId := request]);
    assert PeerOk(p, w, s.server, s.cancelled) && ClientOk(p, s.server);
    FreshIdIsUnseen(s, w);
    RegisterKeepsEntries(p.client, s.server.progressLog[..p.progressRead], s.server.replyLog[..p.repliesRead]);
    PeerAfterStart(p, w, s.server, s.cancelled, request);
    LocalStep(s, w, q, s.cancelled);
    assert Apply(s, StartSession(w, request)) == Local(s, w, q, s.cancelled);
  }

  lemma PeerAfterSend(p: Peer, w: Writer, server: Server, cancelled: set<Guid>, id: Guid)
    requires PeerOk(p, w, server, cancelled) && id in p.starting
    ensures PeerOk(p.(client := PublishRequest(p.client, id, p.starting[id]), starting := p.starting - {id}),
                   w, server, cancelled)
  {
  }

  lemma SendKeepsRequests(s: System, w: Writer, q: Peer)
    requires RequestsOk(s) && w in s.peers && s.peers[w].requestsRead <= |s.peers[w].client.requestLog|
    requires s.peers[w].client.requestLog <= q.client.requestLog && q.requestsRead == s.peers[w].requestsRead
    ensures RequestsOk(Local(s, w, q, s.cancelled))
  {
  }

  lemma SendRequestKeeps(s: System, w: Writer, id: Guid)
    requires Inv(s) && Enabled(s, SendRequest(w, id))
    ensures Inv(Apply(s, SendRequest(w, id)))
  {
    hide Marks, Replies, SentMarks, SentReplies, Script, Entry;
    var p := s.peers[w];
    var q := p.(client := PublishRequest(p.client, id, p.starting[id]), starting := p.starting - {id});
    assert PeerOk(p, w, s.server, s.cancelled) && ClientOk(p, s.server);
    PeerAfterSend(p, w, s.server, s.cancelled, id);
    SendKeepsRequests(s, w, q);
    LocalKeepsPeers(s, w, q, s.cancelled);
    LocalKeepsHandles(s, w, q, s.cancelled);
    LocalKeepsClients(s, w, q, s.cancelled);
    assert Apply(s, SendRequest(w, id)) == Local(s, w, q, s.cancelled);
  }

  // ---- deliveries to the server ----

  lemma DeliveryKeepsRequests(s: System, w: Writer)
    requires RequestsOk(s) && Enabled(s, DeliverRequest(w)) && PeerOk(s.peers[w], w, s.server, s.cancelled)
    ensures RequestsOk(Apply(s, DeliverRequest(w)))
  {
    hide Marks, Replies, SentMarks, SentReplies, Script, Entry, ClientOk, HandleOk;
    var p, t := s.peers[w], Apply(s, DeliverRequest(w));
    var q := t.peers[w];
    var r := p.client.requestLog[p.requestsRead];
    assert q.client.requestLog[..q.requestsRead] == p.client.requestLog[..p.requestsRead] + [r];
    forall k | 0 <= k < |t.arrived|
      ensures Delivered(t, t.arrived[k]) && t.arrived[k].0 != UNKNOWN
    {
      if k < |s.arrived| {
        assert Delivered(s, s.arrived[k]);
      }
    }
    NextDeliveredIsNew(s, w, r);
    assert t.arrived == t.taken + t.server.pending;
  }

  lemma NextDeliveredIsNew(s: System, w: Writer, r: Request)
    requires RequestsOk(s) && Enabled(s, DeliverRequest(w)) && PeerOk(s.peers[w], w, s.server, s.cancelled)
    requires r == s.peers[w].client.requestLog[s.peers[w].requestsRead]
    ensures forall k :: 0 <= k < |s.arrived| ==> s.arrived[k].0 != r.0
  {
    hide Marks, Replies, SentMarks, SentReplies, Script, Entry;
    var p := s.peers[w];
    forall k | 0 <= k < |s.arrived| ensures s.arrived[k].0 != r.0 {
      assert Delivered(s, s.arrived[k]);
      if s.arrived[k].0.writer == w {
        var i :| 0 <= i < p.requestsRead && p.client.requestLog[i] == s.arrived[k];
      }
    }
  }

  lemma DeliveryKeepsPeers(s: System, w: Writer)
    requires PeersOk(s) && Enabled(s, DeliverRequest(w))
    ensures PeersOk(Apply(s, DeliverRequest(w)))
  {
    hide Marks, Replies, SentMarks, SentReplies, Script, Entry;
    var t := Apply(s, DeliverRequest(w));
    forall v | v in t.peers ensures PeerOk(t.peers[v], v, t.server, t.cancelled) {
      assert PeerOk(s.peers[v], v, s.server, s.cancelled);
    }
  }

  lemma DeliverRequestKeeps(s: System, w: Writer)
    requires Inv(s) && Enabled(s, DeliverRequest(w))
    ensures Inv(Apply(s, DeliverRequest(w)))
  {
    hide Marks, Replies, SentMarks, SentReplies, Script, Entry;
    PeerInv(s, w);
    DeliveryKeepsRequests(s, w);
    DeliveryKeepsPeers(s, w);
    DeliveryKeepsRest(s, w);
  }

  lemma DeliveryKeepsRest(s: System, w: Writer)
    requires ClientsOk(s) && HandlesOk(s) && LogsOk(s) && Enabled(s, DeliverRequest(w))
    ensures var t := Apply(s, DeliverRequest(w)); ClientsOk(t) && HandlesOk(t) && LogsOk(t)
  {
  }

  lemma ReplayAppend(es: seq<Event>, e: Event)
    ensures Replay(es + [e]) == ApplyEvent(Replay(es), e)
  {
  }

  lemma CancelKeepsHandle(h: Handle, j: Guid, server: Server, id: Guid, cancelled: bool)
    requires HandleOk(h, j, server, cancelled) && (j == id ==> cancelled)
    ensures HandleOk(h, j, server.(session := server.session - {id}), cancelled)
  {
    hide Marks, Replies, SentMarks, SentReplies, Script, Entry, ScriptOk;
  }

  lemma CancelKeepsHandles(s: System, id: Guid)
    requires HandlesOk(s) && LogsOk(s) && id in s.cancelled
    ensures HandlesOk(Dropped(s, id)) && LogsOk(Dropped(s, id))
  {
    hide HandleOk, Replay;
    ReplayAppend(s.events, Cancel(id));
    var t := Dropped(s, id);
    forall j | j in t.handles ensures HandleOk(t.handles[j], j, t.server, j in t.cancelled) {
      CancelKeepsHandle(s.handles[j], j, s.server, id, j in s.cancelled);
    }
  }

  /** The server drops a session at a client's command. */
  function Dropped(s: System, id: Guid): System {
    s.(server := s.server.(session := s.server.session - {id}), events := s.events + [Cancel(id)])
  }

  lemma DropKeeps(s: System, id: Guid)
    requires Inv(s) && id in s.cancelled
    ensures Inv(Dropped(s, id))
  {
    hide Marks, Replies, SentMarks, SentReplies, Script, Entry;
    CancelKeepsHandles(s, id);
    SessionsAreIrrelevant(s, Dropped(s, id));
  }

  lemma DeliverCommandKeeps(s: System, w: Writer)
    requires Inv(s) && Enabled(s, DeliverCommand(w))
    ensures Inv(Apply(s, DeliverCommand(w)))
  {
    hide Marks, Replies, SentMarks, SentReplies, Script, Entry;
    var p := s.peers[w];
    var q := p.(commandsRead := p.commandsRead + 1);
    var id := p.client.commandLog[p.commandsRead];
    PeerInv(s, w);
    CommandKeepsPeer(p, w, s.server, s.cancelled);
    LocalStep(s, w, q, s.cancelled);
    DropKeeps(Local(s, w, q, s.cancelled), id);
    CommandIsDrop(s, w, q, id);
  }

  lemma CommandIsDrop(s: System, w: Writer, q: Peer, id: Guid)
    requires Enabled(s, DeliverCommand(w)) && q == s.peers[w].(commandsRead := s.peers[w].commandsRead + 1)
    requires id == s.peers[w].client.commandLog[s.peers[w].commandsRead]
    ensures Apply(s, DeliverCommand(w)) == Dropped(Local(s, w, q, s.cancelled), id)
  {
  }

  lemma CommandKeepsPeer(p: Peer, w: Writer, server: Server, cancelled: set<Guid>)
    requires PeerOk(p, w, server, cancelled) && ClientOk(p, server) && p.commandsRead < |p.client.commandLog|
    ensures var q := p.(commandsRead := p.commandsRead + 1); PeerOk(q, w, server, cancelled) && ClientOk(q, server)
    ensures p.client.commandLog[p.commandsRead] in cancelled
  {
  }

  /** Requests, peers and clients do not depend on the session map. */
  lemma SessionsAreIrrelevant(s: System, t: System)
    requires PeersOk(s) && ClientsOk(s) && RequestsOk(s)
    requires t.server == s.server.(session := t.server.session)
    requires t.peers == s.peers && t.handles == s.handles && t.cancelled == s.cancelled
    requires t.arrived == s.arrived && t.taken == s.taken
    ensures PeersOk(t) && ClientsOk(t) && RequestsOk(t)
  {
  }

  // ---- session handles ----

  lemma NextPendingIsNew(s: System)
    requires RequestsOk(s) && s.server.pending != []
    ensures s.server.pending[0].0 != UNKNOWN && s.server.pending[0].0 !in s.handles
  {
    hide Marks, Replies, SentMarks, SentReplies, Script, Entry;
    var r := s.server.pending[0];
    assert s.arrived[|s.taken|] == r;
    forall k | 0 <= k < |s.taken| ensures s.taken[k].0 != r.0 {
      assert s.arrived[k] == s.taken[k];
    }
  }

  lemma TakeKeepsRequests(s: System)
    requires RequestsOk(s) && Enabled(s, TakeSession)
    ensures s.server.pending[0].0 != UNKNOWN && s.server.pending[0].0 !in s.handles
    ensures RequestsOk(Apply(s, TakeSession))
  {
    hide Marks, Replies, SentMarks, SentReplies, Script, Entry;
    NextPendingIsNew(s);
    var t := Apply(s, TakeSession);
    assert t.arrived == t.taken + t.server.pending;
    forall k | 0 <= k < |t.arrived| ensures Delivered(t, t.arrived[k]) {
      assert Delivered(s, s.arrived[k]);
    }
    TakenAreHandled(s.taken, s.server.pending[0], s.handles.Keys, t.handles.Keys);
  }

  /** The handles are those of the requests taken. */
  predicate Handled(taken: seq<Request>, ids: set<Guid>) {
    && (forall k :: 0 <= k < |taken| ==> taken[k].0 in ids)
    && (forall id :: id in ids ==> exists k :: 0 <= k < |taken| && taken[k].0 == id)
  }

  lemma TakenAreHandled(taken: seq<Request>, r: Request, ids: set<Guid>, more: set<Guid>)
    requires Handled(taken, ids) && more == ids + {r.0}
    ensures Handled(taken + [r], more)
  {
    hide Marks, Replies, SentMarks, SentReplies, Script, Entry;
    var now := taken + [r];
    forall id | id in more ensures exists k :: 0 <= k < |now| && now[k].0 == id {
      if id == r.0 {
        assert now[|taken|].0 == id;
      } else {
        var k :| 0 <= k < |taken| && taken[k].0 == id;
        assert now[k].0 == id;
      }
    }
  }

  lemma TakeKeepsHandles(s: System, id: Guid, pending: seq<Request>)
    requires HandlesOk(s) && LogsOk(s) && id !in s.handles
    ensures var t := s.(server := s.server.(pending := pending),
                        handles := s.handles[id := Handle([], [], START_ACTIONS, true, false)]);
            HandlesOk(t) && LogsOk(t)
  {
    MarksOfUnseen(s.server.progressLog, id);
    RepliesOfUnseen(s.server.replyLog, id);
    forall j | j in s.handles ensures HandleOk(s.handles[j], j, s.server.(pending := pending), j in s.cancelled) {
      assert HandleOk(s.handles[j], j, s.server, j in s.cancelled);
    }
    assert START_ACTIONS == [] + START_ACTIONS;
    assert HandleOk(Handle([], [], START_ACTIONS, true, false), id, s.server.(pending := pending), id in s.cancelled);
  }

  lemma TakeSessionKeeps(s: System)
    requires Inv(s) && Enabled(s, TakeSession)
    ensures Inv(Apply(s, TakeSession))
  {
    hide Marks, Replies, SentMarks, SentReplies, Script, Entry, HandleOk, PeerOk, ClientOk;
    TakeKeepsRequests(s);
    TakeKeepsHandles(s, s.server.pending[0].0, s.server.pending[1..]);
    PendingKeepsPeers(s, Apply(s, TakeSession));
  }

  lemma PendingKeepsPeers(s: System, t: System)
    requires PeersOk(s) && ClientsOk(s)
    requires t.peers == s.peers && t.cancelled == s.cancelled && t.server == s.server.(pending := t.server.pending)
    ensures PeersOk(t) && ClientsOk(t)
  {
  }

  lemma CallKeepsOwn(h: Handle, id: Guid, server: Server, cancelled: bool, call: Call)
    requires HandleOk(h, id, server, cancelled) && h.open && h.todo == []
    ensures HandleOk(h.(calls := h.calls + [call], todo := CallActions(call), open := !Closes(call)),
                     id, server, cancelled)
  {
  }

  lemma SameIdsKeepRequests(s: System, t: System)
    requires RequestsOk(s)
    requires t.peers == s.peers && t.handles.Keys == s.handles.Keys && t.server.pending == s.server.pending
    requires t.arrived == s.arrived && t.taken == s.taken
    ensures RequestsOk(t)
  {
  }

  lemma CallKeepsHandles(s: System, id: Guid, call: Call)
    requires HandlesOk(s) && LogsOk(s) && Enabled(s, CallSession(id, call))
    ensures HandlesOk(Apply(s, CallSession(id, call))) && LogsOk(Apply(s, CallSession(id, call)))
  {
    hide Marks, Replies, SentMarks, SentReplies, Script, Entry;
    var t := Apply(s, CallSession(id, call));
    CallKeepsOwn(s.handles[id], id, s.server, id in s.cancelled, call);
    forall j | j in t.handles ensures HandleOk(t.handles[j], j, t.server, j in t.cancelled) {
      if j != id {
        assert HandleOk(s.handles[j], j, s.server, j in s.cancelled);
      }
    }
  }

  lemma CallKeepsRest(s: System, id: Guid, call: Call)
    requires PeersOk(s) && ClientsOk(s) && RequestsOk(s) && Enabled(s, CallSession(id, call))
    ensures PeersOk(Apply(s, CallSession(id, call))) && ClientsOk(Apply(s, CallSession(id, call)))
    ensures RequestsOk(Apply(s, CallSession(id, call)))
  {
    hide Marks, Replies, SentMarks, SentReplies, Script, Entry;
    var t := Apply(s, CallSession(id, call));
    assert t.handles.Keys == s.handles.Keys;
    SameIdsKeepRequests(s, t);
    PendingKeepsPeers(s, t);
  }

  lemma CallSessionKeeps(s: System, id: Guid, call: Call)
    requires Inv(s) && Enabled(s, CallSession(id, call))
    ensures Inv(Apply(s, CallSession(id, call)))
  {
    hide Marks, Replies, SentMarks, SentReplies, Script, Entry;
    CallKeepsHandles(s, id, call);
    CallKeepsRest(s, id, call);
  }

  /** The handle after its next action. */
  function Advance(h: Handle, wasAlive: bool): Handle
    requires h.todo != []
  {
    h.(done := h.done + [h.todo[0]], todo := h.todo[1..],
       failedOnDispose := if h.todo[0] == Dispose then wasAlive else h.failedOnDispose)
  }

  lemma NotYetFailed(h: Handle)
    requires ScriptOk(h) && h.todo != []
    requires h.failedOnDispose ==> DisposedAlive(h.done)
    ensures !h.failedOnDispose
  {
    hide Marks, Replies, SentMarks, SentReplies, Script, Entry;
    DisposalComesLast(h.calls, h.open);
    assert h.done != [] ==> Script(h.calls)[|h.done| - 1] == h.done[|h.done| - 1];
  }

  lemma AdvanceKeepsScript(h: Handle, wasAlive: bool)
    requires ScriptOk(h) && h.todo != []
    ensures ScriptOk(Advance(h, wasAlive))
  {
  }

  lemma AdvanceKeepsPublished(h: Handle, id: Guid, server: Server)
    requires PublishedOk(h, id, server) && h.todo != [] && !h.failedOnDispose
    ensures PublishedOk(Advance(h, AliveIn(server.session, id)), id, Act(server, id, h.todo[0]))
  {
    hide Marks, Replies, SentMarks, SentReplies, Script, Entry;
    var a := h.todo[0];
    DoneAppend(h.done, a);
    match a
    case SendProgress(mark, data) => MarksAppend(server.progressLog, ProgressMsg(id, mark, data), id);
    case SendReply(body) => RepliesAppend(server.replyLog, ReplyMsg(id, body), id);
    case Dispose => MarksOfDisposal(server, id);
    case _ =>
  }

  lemma MarksOfDisposal(server: Server, id: Guid)
    ensures Marks(Act(server, id, Dispose).progressLog, id)
            == Marks(server.progressLog, id) + (if AliveIn(server.session, id) then [(PROG_FAILED, [])] else [])
    ensures Act(server, id, Dispose).replyLog == server.replyLog
  {
    hide Marks, Replies, SentMarks, SentReplies, Script, Entry;
    MarksAppend(server.progressLog, ProgressMsg(id, PROG_FAILED, []), id);
    assert server.progressLog + [] == server.progressLog;
  }

  lemma AdvanceKeepsState(h: Handle, id: Guid, server: Server, cancelled: bool)
    requires StateOk(h, id, server.session, cancelled) && h.todo != [] && !h.failedOnDispose
    ensures StateOk(Advance(h, AliveIn(server.session, id)), id, Act(server, id, h.todo[0]).session, cancelled)
  {
  }

  /** The acting handle itself. */
  lemma PerformKeepsOwn(h: Handle, id: Guid, server: Server, cancelled: bool)
    requires HandleOk(h, id, server, cancelled) && h.todo != []
    ensures HandleOk(Advance(h, AliveIn(server.session, id)), id, Act(server, id, h.todo[0]), cancelled)
  {
    hide Marks, Replies, SentMarks, SentReplies, Script, Entry;
    NotYetFailed(h);
    AdvanceKeepsScript(h, AliveIn(server.session, id));
    AdvanceKeepsPublished(h, id, server);
    AdvanceKeepsState(h, id, server, cancelled);
  }

  /** Any other handle. */
  lemma PerformKeepsOther(h: Handle, id: Guid, server: Server, cancelled: bool, actor: Guid, a: Action)
    requires HandleOk(h, id, server, cancelled) && actor != id
    ensures HandleOk(h, id, Act(server, actor, a), cancelled)
  {
    hide Act, Marks, Replies, SentMarks, SentReplies, Script, Entry, DisposedAlive, CallsOk;
    OtherPublications(server, actor, a, id);
    OtherSessions(server, actor, a, id);
  }

  lemma OtherPublications(server: Server, actor: Guid, a: Action, id: Guid)
    requires actor != id
    ensures Marks(Act(server, actor, a).progressLog, id) == Marks(server.progressLog, id)
    ensures Replies(Act(server, actor, a).replyLog, id) == Replies(server.replyLog, id)
  {
    hide Marks, Replies;
    match a
    case SendProgress(mark, data) => MarksAppend(server.progressLog, ProgressMsg(actor, mark, data), id);
    case SendReply(body) => RepliesAppend(server.replyLog, ReplyMsg(actor, body), id);
    case Dispose =>
      MarksAppend(server.progressLog, ProgressMsg(actor, PROG_FAILED, []), id);
      assert server.progressLog + [] == server.progressLog;
    case _ =>
  }

  lemma OtherSessions(server: Server, actor: Guid, a: Action, id: Guid)
    requires actor != id
    ensures var t := Act(server, actor, a);
            (id in t.session <==> id in server.session) && (id in t.session ==> t.session[id] == server.session[id])
  {
  }

  lemma ActGrowsLogs(server: Server, id: Guid, a: Action)
    ensures server.progressLog <= Act(server, id, a).progressLog
    ensures server.replyLog <= Act(server, id, a).replyLog
    ensures Act(server, id, a).pending == server.pending
    ensures forall i :: |server.progressLog| <= i < |Act(server, id, a).progressLog| ==>
              Act(server, id, a).progressLog[i].id == id
    ensures forall i :: |server.replyLog| <= i < |Act(server, id, a).replyLog| ==>
              Act(server, id, a).replyLog[i].id == id
    ensures forall j :: j in Act(server, id, a).session ==> j in server.session || j == id
  {
  }

  /** Growing logs leave what clients have read as it was. */
  lemma GrowthKeepsPeers(s: System, t: System)
    requires PeersOk(s) && ClientsOk(s)
    requires t.peers == s.peers && t.cancelled == s.cancelled
    requires s.server.progressLog <= t.server.progressLog && s.server.replyLog <= t.server.replyLog
    ensures PeersOk(t) && ClientsOk(t)
  {
    hide Marks, Replies, SentMarks, SentReplies, Script, Entry;
    forall w | w in t.peers ensures PeerOk(t.peers[w], w, t.server, t.cancelled) {
      assert PeerOk(s.peers[w], w, s.server, s.cancelled);
    }
    forall w | w in t.peers ensures ClientOk(t.peers[w], t.server) {
      var p := s.peers[w];
      assert ClientOk(p, s.server);
      assert t.server.progressLog[..p.progressRead] == s.server.progressLog[..p.progressRead];
      assert t.server.replyLog[..p.repliesRead] == s.server.replyLog[..p.repliesRead];
    }
  }

  lemma EventsMatchAction(server: Server, events: seq<Event>, id: Guid, a: Action)
    requires server.session == Replay(events)
    ensures Act(server, id, a).session == Replay(events + ActionEvent(id, a))
  {
    hide Marks, Replies, SentMarks, SentReplies, Script, Entry;
    if ActionEvent(id, a) != [] {
      ReplayAppend(events, ActionEvent(id, a)[0]);
    } else {
      assert events + ActionEvent(id, a) == events;
    }
  }

  lemma PerformKeepsLogs(s: System, id: Guid)
    requires LogsOk(s) && Enabled(s, Perform(id))
    ensures LogsOk(Apply(s, Perform(id)))
  {
    hide Marks, Replies, SentMarks, SentReplies, Script, Entry;
    var a := s.handles[id].todo[0];
    ActGrowsLogs(s.server, id, a);
    EventsMatchAction(s.server, s.events, id, a);
  }

  lemma PerformKeepsHandles(s: System, id: Guid)
    requires HandlesOk(s) && Enabled(s, Perform(id))
    ensures HandlesOk(Apply(s, Perform(id)))
  {
    hide Marks, Replies, SentMarks, SentReplies, Script, Entry;
    var t := Apply(s, Perform(id));
    PerformKeepsOwn(s.handles[id], id, s.server, id in s.cancelled);
    forall j | j in t.handles ensures HandleOk(t.handles[j], j, t.server, j in t.cancelled) {
      if j != id {
        PerformKeepsOther(s.handles[j], j, s.server, j in s.cancelled, id, s.handles[id].todo[0]);
      }
    }
  }

  lemma PerformKeepsRest(s: System, id: Guid)
    requires PeersOk(s) && ClientsOk(s) && RequestsOk(s) && Enabled(s, Perform(id))
    ensures PeersOk(Apply(s, Perform(id))) && ClientsOk(Apply(s, Perform(id)))
    ensures RequestsOk(Apply(s, Perform(id)))
  {
    hide Marks, Replies, SentMarks, SentReplies, Script, Entry;
    var t := Apply(s, Perform(id));
    ActGrowsLogs(s.server, id, s.handles[id].todo[0]);
    GrowthKeepsPeers(s, t);
    assert t.handles.Keys == s.handles.Keys;
    SameIdsKeepRequests(s, t);
  }

  lemma PerformKeeps(s: System, id: Guid)
    requires Inv(s) && Enabled(s, Perform(id))
    ensures Inv(Apply(s, Perform(id)))
  {
    hide Marks, Replies, SentMarks, SentReplies, Script, Entry;
    PerformKeepsLogs(s, id);
    PerformKeepsHandles(s, id);
    PerformKeepsRest(s, id);
  }

  function AfterProgress(p: Peer, server: Server, decodes: bool): Peer
    requires p.progressRead < |server.progressLog|
  {
    p.(client := OnProgress(p.client, server.progressLog[p.progressRead], decodes), progressRead := p.progressRead + 1)
  }

  function AfterReply(p: Peer, server: Server): Peer
    requires p.repliesRead < |server.replyLog|
  {
    p.(client := OnReply(p.client, server.replyLog[p.repliesRead]), repliesRead := p.repliesRead + 1)
  }

  lemma ProgressKeepsPeer(p: Peer, w: Writer, server: Server, cancelled: set<Guid>, decodes: bool)
    requires PeerOk(p, w, server, cancelled) && ClientOk(p, server) && p.progressRead < |server.progressLog|
    ensures var q := AfterProgress(p, server, decodes);
            && PeerOk(q, w, server, cancelled) && ClientOk(q, server)
            && q.client.requestLog == p.client.requestLog && q.requestsRead == p.requestsRead
  {
    hide Marks, Replies, SentMarks, SentReplies, Script, Entry, PeerOk, EntriesOk;
    var q := AfterProgress(p, server, decodes);
    ClientAfterProgress(p, server, decodes);
    assert q.client.session.Keys == p.client.session.Keys;
    PeerAfterReceipt(p, q, w, server, cancelled);
  }

  lemma ReplyKeepsPeer(p: Peer, w: Writer, server: Server, cancelled: set<Guid>)
    requires PeerOk(p, w, server, cancelled) && ClientOk(p, server) && p.repliesRead < |server.replyLog|
    ensures var q := AfterReply(p, server);
            && PeerOk(q, w, server, cancelled) && ClientOk(q, server)
            && q.client.requestLog == p.client.requestLog && q.requestsRead == p.requestsRead
  {
    hide Marks, Replies, SentMarks, SentReplies, Script, Entry, PeerOk, EntriesOk;
    var q := AfterReply(p, server);
    ClientAfterReply(p, server);
    assert q.client.session.Keys == p.client.session.Keys;
    PeerAfterReceipt(p, q, w, server, cancelled);
  }

  /** The invariant, for one client. */
  lemma PeerInv(s: System, w: Writer)
    requires Inv(s) && w in s.peers
    ensures PeerOk(s.peers[w], w, s.server, s.cancelled) && ClientOk(s.peers[w], s.server)
  {
  }

  lemma ReceiveProgressKeeps(s: System, w: Writer, decodes: bool)
    requires Inv(s) && Enabled(s, ReceiveProgress(w, decodes))
    ensures Inv(Apply(s, ReceiveProgress(w, decodes)))
  {
    hide Marks, Replies, SentMarks, SentReplies, Script, Entry;
    var q := AfterProgress(s.peers[w], s.server, decodes);
    PeerInv(s, w);
    ProgressKeepsPeer(s.peers[w], w, s.server, s.cancelled, decodes);
    LocalStep(s, w, q, s.cancelled);
    assert Apply(s, ReceiveProgress(w, decodes)) == Local(s, w, q, s.cancelled);
  }

  lemma ReceiveReplyKeeps(s: System, w: Writer)
    requires Inv(s) && Enabled(s, ReceiveReply(w))
    ensures Inv(Apply(s, ReceiveReply(w)))
  {
    hide Marks, Replies, SentMarks, SentReplies, Script, Entry;
    var q := AfterReply(s.peers[w], s.server);
    PeerInv(s, w);
    ReplyKeepsPeer(s.peers[w], w, s.server, s.cancelled);
    LocalStep(s, w, q, s.cancelled);
    assert Apply(s, ReceiveReply(w)) == Local(s, w, q, s.cancelled);
  }

  // ---- all runs ----

  lemma ServerStepKeeps(s: System, step: Step)
    requires Inv(s) && Enabled(s, step)
    requires step.DeliverRequest? || step.DeliverCommand? || step.TakeSession? || step.CallSession? || step.Perform?
    ensures Inv(Apply(s, step))
  {
    hide *;
    match step
    case DeliverRequest(w) => DeliverRequestKeeps(s, w);
    case DeliverCommand(w) => DeliverCommandKeeps(s, w);
    case TakeSession => TakeSessionKeeps(s);
    case CallSession(id, call) => CallSessionKeeps(s, id, call);
    case Perform(id) => PerformKeeps(s, id);
  }

  lemma ClientStepKeeps(s: System, step: Step)
    requires Inv(s) && Enabled(s, step)
    requires step.StartSession? || step.SendRequest? || step.ReceiveProgress? || step.ReceiveReply?
    ensures Inv(Apply(s, step))
  {
    hide *;
    match step
    case StartSession(w, request) => StartSessionKeeps(s, w, request);
    case SendRequest(w, id) => SendRequestKeeps(s, w, id);
    case ReceiveProgress(w, decodes) => ReceiveProgressKeeps(s, w, decodes);
    case ReceiveReply(w) => ReceiveReplyKeeps(s, w);
  }

  lemma StepKeeps(s: System, step: Step)
    requires Inv(s) && Enabled(s, step)
    ensures Inv(Apply(s, step))
  {
    hide Marks, Replies, SentMarks, SentReplies, Script, Entry;
    if IsLocal(step) {
      LocalStepKeeps(s, step);
    } else if step.StartSession? || step.SendRequest? || step.ReceiveProgress? || step.ReceiveReply? {
      ClientStepKeeps(s, step);
    } else {
      ServerStepKeeps(s, step);
    }
  }

  lemma {:induction false} RunKeeps(states: seq<System>, steps: seq<Step>, n: nat)
    requires IsRun(states, steps) && Inv(states[0]) && n <= |steps|
    ensures Inv(states[n])
  {
    hide Inv, Enabled, Apply;
    if n > 0 {
      RunKeeps(states, steps, n - 1);
      StepOf(states, steps, n - 1);
      StepKeeps(states[n - 1], steps[n - 1]);
    }
  }

  lemma StepOf(states: seq<System>, steps: seq<Step>, i: nat)
    requires IsRun(states, steps) && i < |steps|
    ensures Enabled(states[i], steps[i]) && states[i + 1] == Apply(states[i], steps[i])
  {
    hide Enabled, Apply;
  }

  /** The invariant holds in every reachable state, whatever the clients and the interleaving. */
  lemma ReachableInv(s: System)
    requires Reachable(s)
    ensures Inv(s)
  {
    hide Marks, Replies, SentMarks, SentReplies, Script, Entry;
    var writers, states, steps :| IsRun(states, steps) && states[0] == Initial(writers) && states[|steps|] == s;
    InitialInv(writers);
    RunKeeps(states, steps, |steps|);
  }

  lemma InitialInv(writers: set<Writer>)
    ensures Inv(Initial(writers))
  {
  }
}
