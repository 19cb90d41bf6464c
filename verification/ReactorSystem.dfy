/** One reactor server and any number of clients as a step system.

    Topics are reliable and in order per writer ("stateful" QoS, lines 472-474 of the README.md of
    the library): each writer's samples form a log and every reader has its own position in it. Nothing
    orders one topic against another, nor the steps of different participants, so a run is
    any interleaving of lock bodies, publications and deliveries. Writers are distinct and
    samples carry the ids they were sent with. */
module ReactorSystem {
  import opened Common
  import opened Guids
  import opened ReactorServer
  import opened ReactorClient

  /** A client, the calls it has half finished, and how far each topic has been read. */
  datatype Peer = Peer(
    client: Client,
    starting: map<Guid, Sample>,   // registered, request not yet published
    cancelling: multiset<Guid>,    // erased by cancel, command not yet published
    requestsRead: nat,             // by the server, on this client's request topic
    commandsRead: nat,             // by the server, on this client's command topic
    progressRead: nat,             // by this client
    repliesRead: nat)              // by this client

  /** A session object on the server: its call history, what of it has been performed,
      and whether its disposal found the session alive. */
  datatype Handle = Handle(
    calls: seq<Call>,
    done: seq<Action>,
    todo: seq<Action>,
    open: bool,
    failedOnDispose: bool)

  /** arrived, taken, cancelled and events are history. */
  datatype System = System(
    peers: map<Writer, Peer>,
    server: Server,
    handles: map<Guid, Handle>,
    arrived: seq<Request>,
    taken: seq<Request>,
    cancelled: set<Guid>,
    events: seq<Event>)

  datatype Step =
    // client side
    | GroomList(w: Writer, serverFound: bool)
    | StartSession(w: Writer, request: Sample)
    | SendRequest(w: Writer, id: Guid)
    | CancelSession(w: Writer, id: Guid)
    | SendCancel(w: Writer, id: Guid)
    | DisposeClientSession(w: Writer, id: Guid)
    | ReceiveProgress(w: Writer, decodes: bool)
    | ReceiveReply(w: Writer)
    | GetReply(w: Writer, id: Guid)
    | ReadProgressData(w: Writer, id: Guid, entry: ProgressEntry)
    // server side
    | DeliverRequest(w: Writer)
    | DeliverCommand(w: Writer)
    | TakeSession
    | CallSession(id: Guid, call: Call)
    | Perform(id: Guid)

  /** Ids this client has handed out so far. */
  predicate IssuedBy(c: Client, id: Guid) {
    id.writer == c.lastId.writer && 1 <= id.sequence <= c.lastId.sequence
  }

  /** A client starts a session only while its 64-bit counter has not wrapped. */
  predicate Enabled(s: System, step: Step) {
    match step
    case GroomList(w, _) => w in s.peers
    case StartSession(w, _) => w in s.peers && s.peers[w].client.lastId.sequence < WORD - 1
    case SendRequest(w, id) => w in s.peers && id in s.peers[w].starting
    case CancelSession(w, id) => w in s.peers && IssuedBy(s.peers[w].client, id)
    case SendCancel(w, id) => w in s.peers && id in s.peers[w].cancelling
    case DisposeClientSession(w, id) => w in s.peers && IssuedBy(s.peers[w].client, id)
    case ReceiveProgress(w, _) => w in s.peers && s.peers[w].progressRead < |s.server.progressLog|
    case ReceiveReply(w) => w in s.peers && s.peers[w].repliesRead < |s.server.replyLog|
    case GetReply(w, id) => w in s.peers
    case ReadProgressData(w, id, entry) =>
      && w in s.peers && id in s.peers[w].client.session
      && IsLowest(s.peers[w].client.session[id].progressData, entry)
    case DeliverRequest(w) => w in s.peers && s.peers[w].requestsRead < |s.peers[w].client.requestLog|
    case DeliverCommand(w) => w in s.peers && s.peers[w].commandsRead < |s.peers[w].client.commandLog|
    case TakeSession => s.server.pending != []
    case CallSession(id, _) => id in s.handles && s.handles[id].open && s.handles[id].todo == []
    case Perform(id) => id in s.handles && s.handles[id].todo != []
  }

  function WithPeer(s: System, w: Writer, p: Peer): System {
    s.(peers := s.peers[w := p])
  }

  function WithClient(s: System, w: Writer, c: Client): System
    requires w in s.peers
  {
    WithPeer(s, w, s.peers[w].(client := c))
  }

  function ActionEvent(id: Guid, a: Action): seq<Event> {
    match a
    case SetMark(mark) => [Marked(id, mark)]
    case SetSucceed => [Replied(id)]
    case Dispose => [Disposed(id)]
    case _ => []
  }

  function Apply(s: System, step: Step): System
    requires Enabled(s, step)
  {
    match step
    case GroomList(w, found) => WithClient(s, w, Groom(s.peers[w].client, found))
    case StartSession(w, request) =>
      var c := Register(s.peers[w].client);
      WithPeer(s, w, s.peers[w].(client := c, starting := s.peers[w].starting[c.lastId := request]))
    case SendRequest(w, id) =>
      var p := s.peers[w];
      WithPeer(s, w, p.(client := PublishRequest(p.client, id, p.starting[id]), starting := p.starting - {id}))
    case CancelSession(w, id) =>
      var p := s.peers[w];
      WithPeer(s, w, p.(client := Erase(p.client, id), cancelling := p.cancelling + multiset{id}))
      .(cancelled := s.cancelled + {id})
    case SendCancel(w, id) =>
      var p := s.peers[w];
      WithPeer(s, w, p.(client := PublishCancel(p.client, id), cancelling := p.cancelling - multiset{id}))
    case DisposeClientSession(w, id) =>
      var c := DisposeEntry(s.peers[w].client, id);
      WithClient(s, w, c)
      .(cancelled := if c.commandLog == s.peers[w].client.commandLog then s.cancelled else s.cancelled + {id})
    case ReceiveProgress(w, decodes) =>
      var p := s.peers[w];
      WithPeer(s, w, p.(client := OnProgress(p.client, s.server.progressLog[p.progressRead], decodes),
                        progressRead := p.progressRead + 1))
    case ReceiveReply(w) =>
      var p := s.peers[w];
      WithPeer(s, w, p.(client := OnReply(p.client, s.server.replyLog[p.repliesRead]),
                        repliesRead := p.repliesRead + 1))
    case GetReply(w, id) => WithClient(s, w, TakeReply(s.peers[w].client, id))
    case ReadProgressData(w, id, entry) => WithClient(s, w, TakeProgressData(s.peers[w].client, id, entry))
    case DeliverRequest(w) =>
      var p := s.peers[w];
      var r := p.client.requestLog[p.requestsRead];
      WithPeer(s, w, p.(requestsRead := p.requestsRead + 1))
      .(server := s.server.(pending := s.server.pending + [r]), arrived := s.arrived + [r])
    case DeliverCommand(w) =>
      var p := s.peers[w];
      var e := Cancel(p.client.commandLog[p.commandsRead]);
      WithPeer(s, w, p.(commandsRead := p.commandsRead + 1))
      .(server := s.server.(session := ApplyEvent(s.server.session, e)), events := s.events + [e])
    case TakeSession =>
      // a request under the unknown id would yield a dead session object
      var r := s.server.pending[0];
      s.(server := s.server.(pending := s.server.pending[1..]),
         taken := s.taken + [r],
         handles := if r.0 == UNKNOWN then s.handles
                    else s.handles[r.0 := Handle([], [], START_ACTIONS, true, false)])
    case CallSession(id, call) =>
      var h := s.handles[id];
      s.(handles := s.handles[id := h.(calls := h.calls + [call], todo := CallActions(call), open := !Closes(call))])
    case Perform(id) =>
      var h := s.handles[id];
      var a := h.todo[0];
      s.(server := Act(s.server, id, a),
         events := s.events + ActionEvent(id, a),
         handles := s.handles[id := h.(done := h.done + [a], todo := h.todo[1..],
                                       failedOnDispose := if a == Dispose then AliveIn(s.server.session, id)
                                                          else h.failedOnDispose)])
  }

  const NEW_SERVER := Server(map[], [], [], [])

  function NewPeer(w: Writer): Peer {
    Peer(Client(Guid(w, 0), map[], [], []), map[], multiset{}, 0, 0, 0, 0)
  }

  /** The state before anything happens, for any set of client writers. */
  function Initial(writers: set<Writer>): System {
    System(map w | w in writers :: NewPeer(w), NEW_SERVER, map[], [], [], {}, [])
  }

  /** Each state follows from the one before by the step between them. */
  ghost predicate IsRun(states: seq<System>, steps: seq<Step>) {
    && |states| == |steps| + 1
    && forall i {:trigger steps[i]} :: 0 <= i < |steps| ==>
         Enabled(states[i], steps[i]) && states[i + 1] == Apply(states[i], steps[i])
  }

  ghost predicate Reachable(s: System) {
    exists writers, states, steps :: IsRun(states, steps) && states[0] == Initial(writers) && states[|steps|] == s
  }

  // ---- observations ----

  /** The marks published for one id, each with its data, in order. */
  function Marks(log: seq<ProgressMsg>, id: Guid): seq<ProgressEntry> {
    if log == [] then [] else
    var m := log[|log| - 1];
    Marks(log[..|log| - 1], id) + (if m.id == id then [(m.mark, m.data)] else [])
  }

  function LastMark(marks: seq<ProgressEntry>): int {
    if marks == [] then PROG_SENT else marks[|marks| - 1].0
  }

  function Replies(log: seq<ReplyMsg>, id: Guid): seq<Sample> {
    if log == [] then [] else
    var m := log[|log| - 1];
    Replies(log[..|log| - 1], id) + (if m.id == id then [m.body] else [])
  }

  /** All actions a handle with these calls performs, its start included. */
  function Script(calls: seq<Call>): seq<Action> {
    if calls == [] then START_ACTIONS
    else Script(calls[..|calls| - 1]) + CallActions(calls[|calls| - 1])
  }

  /** The marks a sequence of actions publishes, a disposal aside. */
  function SentMarks(done: seq<Action>): seq<ProgressEntry> {
    if done == [] then [] else
    var a := done[|done| - 1];
    SentMarks(done[..|done| - 1]) + (if a.SendProgress? then [(a.mark, a.data)] else [])
  }

  function SentReplies(done: seq<Action>): seq<Sample> {
    if done == [] then [] else
    var a := done[|done| - 1];
    SentReplies(done[..|done| - 1]) + (if a.SendReply? then [a.body] else [])
  }

  function EntryStep(o: Option<State>, a: Action): Option<State> {
    match a
    case SetMark(mark) =>
      if mark == PROG_START then Some(Starting)
      else if o.Some? && mark > PROG_START then Some(MarkState(mark))
      else None
    case SetSucceed => if o.Some? then Some(Succeed) else None
    case Dispose => None
    case _ => o
  }

  /** The state of a session that only its own handle touches. */
  function Entry(done: seq<Action>): Option<State> {
    if done == [] then None else EntryStep(Entry(done[..|done| - 1]), done[|done| - 1])
  }

  /** The last action performed is a disposal that found the session alive. */
  predicate DisposedAlive(done: seq<Action>) {
    && done != [] && done[|done| - 1] == Dispose
    && Entry(done[..|done| - 1]).Some? && Active(Entry(done[..|done| - 1]).value)
  }

  // ---- the invariant ----

  /** Only the last call may close the handle. */
  predicate CallsOk(calls: seq<Call>, open: bool) {
    && (forall i :: 0 <= i < |calls| - 1 ==> !Closes(calls[i]))
    && (open <==> calls == [] || !Closes(calls[|calls| - 1]))
  }

  predicate PeerOk(p: Peer, w: Writer, server: Server, cancelled: set<Guid>) {
    var c := p.client;
    && c.lastId.writer == w
    && p.requestsRead <= |c.requestLog| && p.commandsRead <= |c.commandLog|
    && p.progressRead <= |server.progressLog| && p.repliesRead <= |server.replyLog|
    && (forall id :: id in c.session ==> IssuedBy(c, id))
    && (forall id :: id in p.starting ==> IssuedBy(c, id))
    && (forall i :: 0 <= i < |c.requestLog| ==>
          IssuedBy(c, c.requestLog[i].0) && c.requestLog[i].0 !in p.starting)
    && DistinctIds(c.requestLog)
    && (forall id :: id in p.cancelling ==> id in cancelled)
    && (forall i :: 0 <= i < |c.commandLog| ==> c.commandLog[i] in cancelled)
  }

  /** r was published by its owner and has been delivered to the server. */
  predicate Delivered(s: System, r: Request) {
    && r.0.writer in s.peers
    && var p := s.peers[r.0.writer];
       p.requestsRead <= |p.client.requestLog| && r in p.client.requestLog[..p.requestsRead]
  }

  predicate RequestsOk(s: System) {
    && s.arrived == s.taken + s.server.pending
    && DistinctIds(s.arrived)
    && (forall k :: 0 <= k < |s.arrived| ==> Delivered(s, s.arrived[k]) && s.arrived[k].0 != UNKNOWN)
    && (forall k :: 0 <= k < |s.taken| ==> s.taken[k].0 in s.handles)
    && (forall id :: id in s.handles ==> exists k :: 0 <= k < |s.taken| && s.taken[k].0 == id)
  }

  predicate LogsOk(s: System) {
    && s.server.session == Replay(s.events)
    && (forall id :: id in s.server.session ==> id in s.handles)
    && (forall i :: 0 <= i < |s.server.progressLog| ==> s.server.progressLog[i].id in s.handles)
    && (forall i :: 0 <= i < |s.server.replyLog| ==> s.server.replyLog[i].id in s.handles)
  }

  /** What has been published for a handle's id is what its performed actions publish. */
  predicate PublishedOk(h: Handle, id: Guid, server: Server) {
    && Marks(server.progressLog, id) == SentMarks(h.done) + (if h.failedOnDispose then [(PROG_FAILED, [])] else [])
    && Replies(server.replyLog, id) == SentReplies(h.done)
  }

  /** The session map holds for a handle's id what its performed actions leave, unless a cancel
      took it away. */
  predicate StateOk(h: Handle, id: Guid, session: Sessions, cancelled: bool) {
    && (id in session ==> Entry(h.done) == Some(session[id]))
    && (!cancelled && Entry(h.done).Some? ==> id in session)
    && (h.failedOnDispose ==> DisposedAlive(h.done))
    && (!cancelled && DisposedAlive(h.done) ==> h.failedOnDispose)
  }

  predicate ScriptOk(h: Handle) {
    CallsOk(h.calls, h.open) && h.done + h.todo == Script(h.calls)
  }

  predicate HandleOk(h: Handle, id: Guid, server: Server, cancelled: bool) {
    ScriptOk(h) && PublishedOk(h, id, server) && StateOk(h, id, server.session, cancelled)
  }

  /** What a client knows of a session follows from what has been delivered to it: its mark is
      the latest delivered one unless a reply came after it. */
  predicate EntryOk(d: SessionData, id: Guid, progress: seq<ProgressMsg>, replies: seq<ReplyMsg>) {
    var marks, bodies := Marks(progress, id), Replies(replies, id);
    && (|| d.progress == LastMark(marks)
        || (bodies != [] && d.progress == PROG_SUCCESS))
    && (d.replyReady <==> bodies != [])
    && (d.reply.Some? ==> bodies != [] && d.reply.value == bodies[|bodies| - 1])
    && (forall e :: e in d.progressData ==> e.1 != [] && ProgressMsg(id, e.0, e.1) in progress)
  }

  predicate EntriesOk(c: Client, progress: seq<ProgressMsg>, replies: seq<ReplyMsg>) {
    forall id :: id in c.session ==> EntryOk(c.session[id], id, progress, replies)
  }

  predicate ClientOk(p: Peer, server: Server) {
    && p.progressRead <= |server.progressLog| && p.repliesRead <= |server.replyLog|
    && EntriesOk(p.client, server.progressLog[..p.progressRead], server.replyLog[..p.repliesRead])
  }

  predicate PeersOk(s: System) {
    forall w :: w in s.peers ==> PeerOk(s.peers[w], w, s.server, s.cancelled)
  }

  predicate ClientsOk(s: System) {
    forall w :: w in s.peers ==> ClientOk(s.peers[w], s.server)
  }

  predicate HandlesOk(s: System) {
    forall id :: id in s.handles ==> HandleOk(s.handles[id], id, s.server, id in s.cancelled)
  }

  predicate Inv(s: System) {
    PeersOk(s) && ClientsOk(s) && RequestsOk(s) && LogsOk(s) && HandlesOk(s)
  }
}
