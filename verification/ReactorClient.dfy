/** The client side of the reactor (src/LetsTalk/ReactorClientImpl.hpp). */
module ReactorClient {
  import opened Common
  import opened Guids
  import opened ReactorServer

  /** A progress sample waiting to be read, under the mark it came with. */
  type ProgressEntry = (int, Sample)

  /** `reply` is None until a reply arrives and again after `get` has moved it out. */
  datatype SessionData = SessionData(
    progress: int,
    progressData: multiset<ProgressEntry>,
    reply: Option<Sample>,
    replyReady: bool)

  const FRESH := SessionData(PROG_SENT, multiset{}, None, false)

  /** A backend together with everything it has published. */
  datatype Client = Client(
    lastId: Guid,
    session: map<Guid, SessionData>,
    requestLog: seq<Request>,
    commandLog: seq<Guid>)

  // ---- atomic regions ----

  /** The locked part of startNewSession. An entry already stored under the id is kept. */
  function Register(c: Client): Client {
    var id := Increment(c.lastId);
    c.(lastId := id, session := if id in c.session then c.session else c.session[id := FRESH])
  }

  function PublishRequest(c: Client, id: Guid, request: Sample): Client {
    c.(requestLog := c.requestLog + [(id, request)])
  }

  /** The progress callback; `decodes` says whether the payload deserialized. */
  function OnProgress(c: Client, m: ProgressMsg, decodes: bool): Client {
    if m.id !in c.session then c else
    var d := c.session[m.id];
    var queue := if m.data != [] && decodes then d.progressData + multiset{(m.mark, m.data)} else d.progressData;
    c.(session := c.session[m.id := d.(progress := m.mark, progressData := queue)])
  }

  function OnReply(c: Client, m: ReplyMsg): Client {
    if m.id !in c.session then c else
    var d := c.session[m.id];
    c.(session := c.session[m.id := d.(progress := PROG_SUCCESS, reply := Some(m.body), replyReady := true)])
  }

  /** `get` moves the reply out and leaves the entry ready. */
  function TakeReply(c: Client, id: Guid): Client {
    if id in c.session && c.session[id].replyReady
    then c.(session := c.session[id := c.session[id].(reply := None)])
    else c
  }

  predicate IsLowest(q: multiset<ProgressEntry>, e: ProgressEntry) {
    e in q && forall x :: x in q ==> e.0 <= x.0
  }

  /** `progressData` removes one entry with the lowest mark. */
  function TakeProgressData(c: Client, id: Guid, e: ProgressEntry): Client
    requires id in c.session
  {
    var d := c.session[id];
    c.(session := c.session[id := d.(progressData := d.progressData - multiset{e})])
  }

  function Erase(c: Client, id: Guid): Client {
    c.(session := c.session - {id})
  }

  function PublishCancel(c: Client, id: Guid): Client {
    c.(commandLog := c.commandLog + [id])
  }

  /** disposeOfSession before it grooms: a session not known to have failed is cancelled. */
  function DisposeEntry(c: Client, id: Guid): Client {
    if id in c.session && PROG_SENT <= c.session[id].progress <= PROG_SUCCESS
    then PublishCancel(Erase(c, id), id)
    else Erase(c, id)
  }

  predicate InProgress(d: SessionData) {
    PROG_SENT <= d.progress < PROG_SUCCESS
  }

  /** Grooming as intended: forget everything if there is no server, else what has ended. */
  function Groom(c: Client, serverFound: bool): Client {
    c.(session := if serverFound
                  then map id | id in c.session && InProgress(c.session[id]) :: c.session[id]
                  else map[])
  }

  predicate IsAlive(c: Client, serverFound: bool, id: Guid) {
    serverFound && id in c.session && InProgress(c.session[id])
  }

  function ProgressOf(c: Client, id: Guid): int {
    if id in c.session then c.session[id].progress else PROG_UNKNOWN
  }

  /** Grooming keeps exactly the sessions that isAlive reports, as they are; so it cannot be observed
      through isAlive, and grooming again changes nothing. */
  lemma GroomingIsInvisible(c: Client, serverFound: bool, id: Guid)
    ensures var g := Groom(c, serverFound);
            && (id in g.session <==> IsAlive(c, serverFound, id))
            && (id in g.session ==> g.session[id] == c.session[id])
            && (IsAlive(g, serverFound, id) <==> IsAlive(c, serverFound, id))
            && Groom(g, serverFound) == g && g == c.(session := g.session)
  {
  }

  // ---- the backend object ----

  class ReactorClientBackend {
    var lastId: Guid
    var session: map<Guid, SessionData>
    var requestsSent: seq<Request>
    var commandsSent: seq<Guid>

    function Value(): Client
      reads this
    {
      Client(lastId, session, requestsSent, commandsSent)
    }

    /** m_lastId starts as the guid of the request writer, whose sequence is zero. */
    constructor (writer: Writer)
      ensures Value() == Client(Guid(writer, 0), map[], [], [])
    {
      lastId, session, requestsSent, commandsSent := Guid(writer, 0), map[], [], [];
    }

    method StartNewSession(request: Sample) returns (id: Guid)
      modifies this
      ensures id == Increment(old(lastId))
      ensures Value() == PublishRequest(Register(old(Value())), id, request)
    {
      lastId := Increment(lastId);
      id := lastId;
      if lastId !in session {
        session := session[lastId := FRESH];
      }
      requestsSent := requestsSent + [(id, request)];
    }

    method DoRequest(request: Sample, serverFound: bool) returns (id: Guid)
      modifies this
      ensures id == Increment(old(lastId))
      ensures Value() == PublishRequest(Register(Groom(old(Value()), serverFound)), id, request)
    {
      GroomSessionList(serverFound);
      id := StartNewSession(request);
    }

    method HandleProgress(m: ProgressMsg, decodes: bool)
      modifies this`session
      ensures Value() == OnProgress(old(Value()), m, decodes)
    {
      if m.id !in session {
        return;
      }
      var d := session[m.id];
      d := d.(progress := m.mark);
      if |m.data| > 0 && decodes {
        d := d.(progressData := d.progressData + multiset{(m.mark, m.data)});
      }
      session := session[m.id := d];
    }

    method HandleReply(m: ReplyMsg)
      modifies this`session
      ensures Value() == OnReply(old(Value()), m)
    {
      if m.id !in session {
        return;
      }
      session := session[m.id :=
        session[m.id].(progress := PROG_SUCCESS, reply := Some(m.body), replyReady := true)];
    }

    /** True exactly when the session is known and its reply is ready; the value is None if
        an earlier call already moved it out. */
    method Get(id: Guid) returns (ok: bool, reply: Option<Sample>)
      modifies this`session
      ensures ok <==> id in old(session) && old(session)[id].replyReady
      ensures reply == if ok then old(session)[id].reply else None
      ensures Value() == TakeReply(old(Value()), id)
    {
      ok, reply := false, None;
      if id in session && session[id].replyReady {
        ok, reply := true, session[id].reply;
        session := session[id := session[id].(reply := None)];
      }
    }

    method DoCancel(id: Guid)
      modifies this
      ensures Value() == PublishCancel(Erase(old(Value()), id), id)
    {
      session := session - {id};
      commandsSent := commandsSent + [id];
    }

    method Alive(id: Guid, serverFound: bool) returns (b: bool)
      ensures b <==> IsAlive(Value(), serverFound, id)
    {
      if !serverFound {
        return false;
      }
      b := id in session && session[id].progress >= PROG_SENT && session[id].progress < PROG_SUCCESS;
    }

    method GroomSessionList(serverFound: bool)
      modifies this`session
      ensures Value() == Groom(old(Value()), serverFound)
    {
      if !serverFound {
        session := map[];
        return;
      }
      var todo := session.Keys;
      while todo != {}
        invariant todo <= session.Keys <= old(session).Keys
        invariant forall k :: k in session ==> session[k] == old(session)[k]
        invariant forall k :: k in old(session) && k !in todo ==>
                    (k in session <==> InProgress(old(session)[k]))
        decreases todo
      {
        var k :| k in todo;
        if session[k].progress < PROG_SENT || session[k].progress >= PROG_SUCCESS {
          session := session - {k};
        }
        todo := todo - {k};
      }
      assert session == Groom(old(Value()), serverFound).session;
    }

    method Progress(id: Guid) returns (p: int)
      ensures p == ProgressOf(Value(), id)
    {
      p := if id in session then session[id].progress else PROG_UNKNOWN;
    }

    /** The top of the priority queue is an entry with the lowest mark. */
    method LowestEntry(q: multiset<ProgressEntry>) returns (e: ProgressEntry)
      requires q != multiset{}
      ensures IsLowest(q, e)
    {
      e :| e in q;
      var rest := q;
      while rest != multiset{}
        invariant rest <= q && e in q
        invariant forall x :: x in q && x !in rest ==> e.0 <= x.0
        decreases |rest|
      {
        var x :| x in rest;
        if x.0 < e.0 {
          e := x;
        }
        rest := rest[x := 0];
      }
    }

    method ProgressData(id: Guid) returns (ok: bool, data: Sample)
      modifies this`session
      ensures ok <==> id in old(session) && old(session)[id].progressData != multiset{}
      ensures !ok ==> session == old(session)
      ensures ok ==> exists e :: IsLowest(old(session)[id].progressData, e) && data == e.1
                                 && Value() == TakeProgressData(old(Value()), id, e)
    {
      ok, data := false, [];
      if id in session && session[id].progressData != multiset{} {
        var e := LowestEntry(session[id].progressData);
        ok, data := true, e.1;
        session := session[id := session[id].(progressData := session[id].progressData - multiset{e})];
      }
    }

    method DisposeOfSession(id: Guid, serverFound: bool)
      modifies this
      ensures Value() == Groom(DisposeEntry(old(Value()), id), serverFound)
    {
      if id in session {
        if session[id].progress >= PROG_SENT && session[id].progress <= PROG_SUCCESS {
          commandsSent := commandsSent + [id];
        }
      }
      session := session - {id};
      GroomSessionList(serverFound);
    }
  }
}
