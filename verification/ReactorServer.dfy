/** The server side of the reactor (src/LetsTalk/ReactorServerImpl.hpp).

    A value `Server` holds what the backend keeps and what it has published. The code
    changes it in small atomic regions: the body of each lock, and each publication.
    `Act` gives every region its meaning; the class performs the regions one after the
    other, and the whole-system model interleaves them. */
module ReactorServer {
  import opened Common
  import opened Guids

  // ReactorProgressMark (src/LetsTalk/Reactor.hpp)
  const PROG_UNKNOWN := -200
  const PROG_FAILED := -100
  const PROG_SENT := 0
  const PROG_START := 1
  const PROG_SUCCESS := 100

  datatype State =
    | Starting | Running | Cancelling | Cancelled | Failing | Failed | Succeeding | Succeed

  datatype ProgressMsg = ProgressMsg(id: Guid, mark: int, data: Sample)
  datatype ReplyMsg = ReplyMsg(id: Guid, body: Sample)

  type Sessions = map<Guid, State>

  datatype Server = Server(
    session: Sessions,
    pending: seq<Request>,
    progressLog: seq<ProgressMsg>,
    replyLog: seq<ReplyMsg>)

  // ---- changes of the session map ----

  /** What can happen to the session map, each under the session lock. */
  datatype Event =
    | Marked(id: Guid, mark: int)   // locked part of progress
    | Replied(id: Guid)             // locked part of recordReply
    | Disposed(id: Guid)            // disposeOfSession
    | Cancel(id: Guid)              // command callback

  /** The state a known session gets from a mark that keeps it. */
  function MarkState(mark: int): State
    requires mark >= PROG_START
  {
    if mark >= PROG_SUCCESS then Succeeding
    else if mark > PROG_START then Running
    else Starting
  }

  function ApplyEvent(m: Sessions, e: Event): Sessions {
    match e
    case Marked(id, mark) =>
      if id in m then
        if mark >= PROG_START then m[id := MarkState(mark)] else m - {id}
      else if mark == PROG_START then m[id := Starting]
      else m
    case Replied(id) => if id in m then m[id := Succeed] else m
    case Disposed(id) => m - {id}
    case Cancel(id) => m - {id}
  }

  predicate Active(st: State) {
    st == Starting || st == Running
  }

  predicate AliveIn(m: Sessions, id: Guid) {
    id in m && Active(m[id])
  }

  // ---- atomic regions performed for one session ----

  datatype Action =
    | SetMark(mark: int)
    | SendProgress(mark: int, data: Sample)
    | SetSucceed
    | SendReply(body: Sample)
    | Dispose

  /** disposeOfSession publishes its failure mark while it holds the lock. */
  function Act(s: Server, id: Guid, a: Action): Server {
    match a
    case SetMark(mark) => s.(session := ApplyEvent(s.session, Marked(id, mark)))
    case SendProgress(mark, data) => s.(progressLog := s.progressLog + [ProgressMsg(id, mark, data)])
    case SetSucceed => s.(session := ApplyEvent(s.session, Replied(id)))
    case SendReply(body) => s.(replyLog := s.replyLog + [ReplyMsg(id, body)])
    case Dispose =>
      s.(session := ApplyEvent(s.session, Disposed(id)),
         progressLog := s.progressLog +
           (if AliveIn(s.session, id) then [ProgressMsg(id, PROG_FAILED, [])] else []))
  }

  function ActAll(s: Server, id: Guid, actions: seq<Action>): Server
    decreases |actions|
  {
    if actions == [] then s else ActAll(Act(s, id, actions[0]), id, actions[1..])
  }

  // ---- the calls a session handle offers ----

  datatype Call =
    | Progress(mark: int, data: Sample)
    | Reply(body: Sample)
    | Fail
    | Destroy

  function CallActions(c: Call): seq<Action> {
    match c
    case Progress(mark, data) => [SetMark(mark), SendProgress(mark, data)]
    case Reply(body) => [SendProgress(PROG_SUCCESS, []), SetSucceed, SendReply(body)]
    case Fail => [SetMark(PROG_FAILED), SendProgress(PROG_FAILED, [])]
    case Destroy => [Dispose]
  }

  /** Constructing a live handle announces the start. */
  const START_ACTIONS: seq<Action> := CallActions(Progress(PROG_START, []))

  /** Calls after which the handle no longer refers to the backend. */
  predicate Closes(c: Call) {
    c == Fail || c == Destroy
  }

  // ---- the backend object ----

  class ReactorServerBackend {
    var session: Sessions
    var pending: seq<Request>
    var progressSent: seq<ProgressMsg>   // everything m_progressSender published
    var repliesSent: seq<ReplyMsg>       // everything m_replySender published

    function Value(): Server
      reads this
    {
      Server(session, pending, progressSent, repliesSent)
    }

    constructor ()
      ensures Value() == Server(map[], [], [], [])
    {
      session, pending, progressSent, repliesSent := map[], [], [], [];
    }

    method OnCommand(related: Guid)
      modifies this`session
      ensures session == ApplyEvent(old(session), Cancel(related))
    {
      session := session - {related};
    }

    method OnRequest(request: Sample, id: Guid)
      modifies this`pending
      ensures pending == old(pending) + [(id, request)]
    {
      pending := pending + [(id, request)];
    }

    method HavePendingSession() returns (b: bool)
      ensures b <==> pending != []
    {
      b := |pending| > 0;
    }

    method PublishProgress(id: Guid, mark: int, data: Sample)
      modifies this`progressSent
      ensures Value() == Act(old(Value()), id, SendProgress(mark, data))
    {
      progressSent := progressSent + [ProgressMsg(id, mark, data)];
    }

    method RecordReply(id: Guid)
      modifies this`session, this`progressSent
      ensures Value() == Act(Act(old(Value()), id, SendProgress(PROG_SUCCESS, [])), id, SetSucceed)
    {
      PublishProgress(id, PROG_SUCCESS, []);
      if id in session {
        session := session[id := Succeed];
      }
    }

    method DoReply(id: Guid, body: Sample)
      modifies this
      ensures Value() == ActAll(old(Value()), id, CallActions(Reply(body)))
    {
      RecordReply(id);
      repliesSent := repliesSent + [ReplyMsg(id, body)];
      UnfoldThree(old(Value()), id, CallActions(Reply(body)));
    }

    /** The wait ends with a request if there is one, however long it took. */
    method GetPendingSessionData() returns (r: Request)
      modifies this`pending
      ensures old(pending) == [] ==> r == (UNKNOWN, []) && pending == []
      ensures old(pending) != [] ==> [r] + pending == old(pending)
    {
      if pending != [] {
        r := pending[0];
        pending := pending[1..];
      } else {
        r := (UNKNOWN, []);
      }
    }

    method DoProgress(id: Guid, mark: int, payload: Sample)
      modifies this
      ensures Value() == ActAll(old(Value()), id, CallActions(Progress(mark, payload)))
    {
      if id in session {
        if mark >= PROG_SUCCESS {
          session := session[id := Succeeding];
        } else if mark > PROG_START {
          session := session[id := Running];
        } else if mark == PROG_START {
          session := session[id := Starting];
        } else {
          session := session - {id};
        }
      } else if mark == PROG_START {
        session := session[id := Starting];
      }
      PublishProgress(id, mark, payload);
      UnfoldTwo(old(Value()), id, CallActions(Progress(mark, payload)));
    }

    method IsAlive(id: Guid) returns (b: bool)
      ensures b <==> AliveIn(session, id)
    {
      if id !in session {
        return false;
      }
      match session[id]
      case Starting => b := true;
      case Running => b := true;
      case _ => b := false;
    }

    method DisposeOfSession(id: Guid)
      modifies this
      ensures Value() == ActAll(old(Value()), id, CallActions(Destroy))
    {
      if id in session {
        if session[id] == Starting || session[id] == Running {
          PublishProgress(id, PROG_FAILED, []);
        }
      }
      session := session - {id};
      assert Value() == Act(old(Value()), id, Dispose);
      UnfoldOne(old(Value()), id, CallActions(Destroy));
    }
  }

  lemma UnfoldOne(s: Server, id: Guid, a: seq<Action>)
    requires |a| == 1
    ensures ActAll(s, id, a) == Act(s, id, a[0])
  {
  }

  lemma UnfoldTwo(s: Server, id: Guid, a: seq<Action>)
    requires |a| == 2
    ensures ActAll(s, id, a) == Act(Act(s, id, a[0]), id, a[1])
  {
    UnfoldOne(Act(s, id, a[0]), id, a[1..]);
  }

  lemma UnfoldThree(s: Server, id: Guid, a: seq<Action>)
    requires |a| == 3
    ensures ActAll(s, id, a) == Act(Act(Act(s, id, a[0]), id, a[1]), id, a[2])
  {
    UnfoldTwo(Act(s, id, a[0]), id, a[1..]);
  }

  /** The handle given to the service author; `backend` is null once it is closed. */
  class Session {
    var backend: ReactorServerBackend?
    const request: Sample
    const id: Guid

    constructor (reactor: ReactorServerBackend?, request: Sample, id: Guid)
      modifies reactor
      ensures backend == reactor && this.request == request && this.id == id
      ensures reactor != null ==> reactor.Value() == ActAll(old(reactor.Value()), id, START_ACTIONS)
    {
      this.backend, this.request, this.id := reactor, request, id;
      new;
      if backend != null {
        backend.DoProgress(id, PROG_START, []);
      }
    }

    /** Every call but a repeated one on a closed handle performs its actions; fail closes the handle. */
    method Invoke(c: Call)
      requires c != Destroy
      modifies this, backend
      ensures old(backend) == null ==> backend == null
      ensures old(backend) != null ==>
                && old(backend).Value() == ActAll(old(backend.Value()), id, CallActions(c))
                && backend == if c == Fail then null else old(backend)
    {
      if backend != null {
        match c
        case Progress(mark, data) => backend.DoProgress(id, mark, data);
        case Reply(body) => backend.DoReply(id, body);
        case Fail =>
          backend.DoProgress(id, PROG_FAILED, []);
          backend := null;
      }
    }

    method Alive() returns (b: bool)
      ensures b <==> backend != null && AliveIn(backend.session, id)
    {
      if backend != null {
        b := backend.IsAlive(id);
      } else {
        b := false;
      }
    }

    /** The destructor. */
    method Close()
      modifies this, backend
      ensures backend == null
      ensures old(backend) != null ==>
                old(backend).Value() == ActAll(old(backend.Value()), id, CallActions(Destroy))
    {
      if backend != null {
        backend.DisposeOfSession(id);
      }
      backend := null;
    }
  }

  // ---- liveness is a function of history ----

  /** The session map after a sequence of events, oldest first. */
  function Replay(es: seq<Event>): Sessions {
    if es == [] then map[] else ApplyEvent(Replay(es[..|es| - 1]), es[|es| - 1])
  }

  /** A cancel, a disposal, or a mark below START. */
  predicate Removes(e: Event, id: Guid) {
    e.id == id && (e.Disposed? || e.Cancel? || (e.Marked? && e.mark < PROG_START))
  }

  /** An event that decides the state of a session that is present. */
  predicate Decides(e: Event, id: Guid) {
    e.id == id && (e.Replied? || (e.Marked? && e.mark >= PROG_START))
  }

  /** Position i holds a START for id that nothing later removed. */
  predicate StandingStart(es: seq<Event>, id: Guid, i: nat) {
    i < |es| && es[i] == Marked(id, PROG_START) && forall j :: i < j < |es| ==> !Removes(es[j], id)
  }

  /** Position k holds the latest event that decides id's state, a mark in 1..99. */
  predicate LatestIsLiveMark(es: seq<Event>, id: Guid, k: nat) {
    && k < |es| && es[k].Marked? && es[k].id == id && PROG_START <= es[k].mark < PROG_SUCCESS
    && forall j :: k < j < |es| ==> !Decides(es[j], id)
  }

  lemma {:induction false} PresentByHistory(es: seq<Event>, id: Guid)
    ensures id in Replay(es) <==> exists i: nat :: StandingStart(es, id, i)
  {
    if es != [] {
      var init, e := es[..|es| - 1], es[|es| - 1];
      PresentByHistory(init, id);
      if e == Marked(id, PROG_START) {
        assert StandingStart(es, id, |es| - 1);
      } else if Removes(e, id) {
        assert id !in Replay(es);
        forall i: nat ensures !StandingStart(es, id, i) {
          assert Removes(es[|es| - 1], id);
        }
      } else {
        forall i: nat ensures StandingStart(es, id, i) <==> StandingStart(init, id, i) {
          if StandingStart(init, id, i) {
            forall j | i < j < |es| ensures !Removes(es[j], id) {
              assert j < |init| ==> es[j] == init[j];
            }
          }
          if StandingStart(es, id, i) {
            assert i < |init|;
            assert forall j :: i < j < |init| ==> init[j] == es[j];
          }
        }
      }
    }
  }

  /** For every event sequence: a session is alive exactly when some START for it was never
      followed by its removal and the latest event deciding its state is a mark in 1..99. */
  lemma {:induction false} LivenessByHistory(es: seq<Event>, id: Guid)
    ensures AliveIn(Replay(es), id) <==>
            && (exists i: nat :: StandingStart(es, id, i))
            && (exists k: nat :: LatestIsLiveMark(es, id, k))
  {
    PresentByHistory(es, id);
    if es != [] {
      var init, e := es[..|es| - 1], es[|es| - 1];
      PresentByHistory(init, id);
      LivenessByHistory(init, id);
      if Decides(e, id) {
        if e.Marked? && e.mark < PROG_SUCCESS {
          assert LatestIsLiveMark(es, id, |es| - 1);
        } else {
          forall k: nat ensures !LatestIsLiveMark(es, id, k) {
            assert Decides(es[|es| - 1], id);
          }
        }
      } else if !Removes(e, id) {
        forall k: nat ensures LatestIsLiveMark(es, id, k) <==> LatestIsLiveMark(init, id, k) {
          if LatestIsLiveMark(init, id, k) {
            forall j | k < j < |es| ensures !Decides(es[j], id) {
              assert j < |init| ==> es[j] == init[j];
            }
          }
          if LatestIsLiveMark(es, id, k) {
            assert k < |init| && forall j :: k < j < |init| ==> init[j] == es[j];
          }
        }
      }
    }
  }

  /** Once a session is gone, only a new START for the same id brings it back. */
  lemma OnlyStartRevives(es: seq<Event>, more: seq<Event>, id: Guid)
    requires id !in Replay(es) && id in Replay(es + more)
    ensures Marked(id, PROG_START) in more
  {
    PresentByHistory(es + more, id);
    var i: nat :| StandingStart(es + more, id, i);
    StandingInPrefix(es, more, id, i);
    PresentByHistory(es, id);
    assert (es + more)[i] == more[i - |es|];
  }

  lemma StandingInPrefix(es: seq<Event>, more: seq<Event>, id: Guid, i: nat)
    requires StandingStart(es + more, id, i)
    ensures i < |es| ==> StandingStart(es, id, i)
  {
    assert forall j :: i < j < |es| ==> es[j] == (es + more)[j];
  }
}
