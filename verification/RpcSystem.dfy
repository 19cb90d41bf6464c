/** Any number of requesters that share one service, as a step system.

    Every requester has its own request topic position at the service, and reads every reply the
    service publishes, in order. Requests of different requesters, and the two directions of
    travel, interleave freely. A requester stays below 2^32 requests. The service takes requests
    in order of arrival and may answer those it has taken in any order; a ServiceProvider answers
    each before it takes the next. */
module RpcSystem {
  import opened Common
  import opened Guids
  import opened RequestReply

  /** A requester, with the bodies of its requests in order. */
  datatype Site = Site(
    requester: Requester,
    bodies: seq<Sample>,
    sending: map<Guid, Sample>,   // issued, not yet published
    log: seq<Request>,            // published
    requestsRead: nat,            // by the service
    repliesRead: nat)             // by the requester

  /** A request the service has answered, and how. */
  datatype Answer = Answer(id: Guid, body: Sample, outcome: Outcome)

  datatype System = System(
    sites: map<Writer, Site>,
    queue: seq<Request>,
    open: map<Guid, Sample>,
    served: seq<Answer>,
    replyLog: seq<Reply>)

  datatype Step =
    | IssueRequest(w: Writer, body: Sample)
    | SendRequest(w: Writer, id: Guid)
    | DeliverRequest(w: Writer)
    | TakeRequest
    | AnswerRequest(id: Guid, outcome: Outcome)
    | ReceiveReply(w: Writer)

  ghost predicate Enabled(s: System, step: Step) {
    match step
    case IssueRequest(w, _) =>
      && w in s.sites && Valid(s.sites[w].requester)
      && s.sites[w].requester.sessionId.sequence + 1 < HALF
    case SendRequest(w, id) => w in s.sites && id in s.sites[w].sending
    case DeliverRequest(w) => w in s.sites && s.sites[w].requestsRead < |s.sites[w].log|
    case TakeRequest => s.queue != []
    case AnswerRequest(id, _) => id in s.open
    case ReceiveReply(w) => w in s.sites && Valid(s.sites[w].requester) && s.sites[w].repliesRead < |s.replyLog|
  }

  ghost function Apply(s: System, step: Step): System
    requires Enabled(s, step)
  {
    match step
    case IssueRequest(w, body) =>
      var p := s.sites[w];
      var r := Issue(p.requester);
      s.(sites := s.sites[w := p.(requester := r,
                                  bodies := p.bodies + [body], sending := p.sending[r.sessionId := body])])
    case SendRequest(w, id) =>
      var p := s.sites[w];
      s.(sites := s.sites[w := p.(sending := p.sending - {id}, log := p.log + [(id, p.sending[id])])])
    case DeliverRequest(w) =>
      var p := s.sites[w];
      s.(sites := s.sites[w := p.(requestsRead := p.requestsRead + 1)], queue := s.queue + [p.log[p.requestsRead]])
    case TakeRequest =>
      s.(queue := s.queue[1..], open := s.open[s.queue[0].0 := s.queue[0].1])
    case AnswerRequest(id, outcome) =>
      s.(open := s.open - {id},
         served := s.served + [Answer(id, s.open[id], outcome)],
         replyLog := s.replyLog + [Announce(id, outcome)])
    case ReceiveReply(w) =>
      var p := s.sites[w];
      s.(sites := s.sites[w := p.(requester := OnReply(p.requester, s.replyLog[p.repliesRead]),
                                  repliesRead := p.repliesRead + 1)])
  }

  function Initial(writers: set<Writer>): System {
    System(map w | w in writers :: Site(NewRequester(w), [], map[], [], 0, 0), [], map[], [], [])
  }

  /** Each state follows from the one before by the step between them. */
  ghost predicate IsRun(states: seq<System>, steps: seq<Step>) {
    && |states| == |steps| + 1
    && forall i {:trigger steps[i]} :: 0 <= i < |steps| ==>
         Enabled(states[i], steps[i]) && states[i + 1] == Apply(states[i], steps[i])
  }

  ghost predicate Reachable(s: System) {
    exists writers, states, steps :: IsRun(states, steps) && states[0] == Initial(writers) && states[|steps|] == s
  }

  // ---- the invariant ----

  /** The id of the request number i (from zero) of requester w. */
  function IdOf(w: Writer, i: nat): (id: Guid)
    requires i + 1 < HALF
    ensures Small(id)
  {
    Guid(w, i + 1)
  }

  /** The outcome for id among some answers. */
  function OutcomeOf(served: seq<Answer>, id: Guid): Promise {
    if served == [] then Unset
    else
      var last := served[|served| - 1];
      if last.id == id then Set(last.outcome) else OutcomeOf(served[..|served| - 1], id)
  }

  /** Promises and pending ids follow the numbering of requests, and every promise holds what
      the replies read so far say about its id. */
  ghost predicate RequesterOk(w: Writer, r: Requester, seen: seq<Answer>) {
    && Valid(r) && r.sessionId.writer == w && |r.promises| == r.sessionId.sequence < HALF
    && (forall id :: id in r.requests ==> Small(id) && id.writer == w && id.sequence == r.requests[id] + 1)
    && (forall i :: 0 <= i < |r.promises| ==> r.promises[i] == OutcomeOf(seen, IdOf(w, i)))
  }

  predicate IssuedAs(w: Writer, bodies: seq<Sample>, r: Request) {
    r.0.writer == w && 1 <= r.0.sequence <= |bodies| && r.1 == bodies[r.0.sequence - 1]
  }

  /** Every request issued is either about to be published or has been, once, as it was made. */
  ghost predicate TopicOk(w: Writer, p: Site) {
    && |p.bodies| == |p.requester.promises| < HALF && p.requestsRead <= |p.log| && DistinctIds(p.log)
    && (forall id :: id in p.sending ==> IssuedAs(w, p.bodies, (id, p.sending[id])))
    && (forall j :: 0 <= j < |p.log| ==> IssuedAs(w, p.bodies, p.log[j]) && p.log[j].0 !in p.sending)
    && (forall i :: 0 <= i < |p.bodies| ==> IdOf(w, i) in p.sending || (IdOf(w, i), p.bodies[i]) in p.log)
  }

  ghost predicate SiteOk(w: Writer, p: Site, served: seq<Answer>) {
    TopicOk(w, p) && p.repliesRead <= |served| && RequesterOk(w, p.requester, served[..p.repliesRead])
  }

  ghost predicate SitesOk(s: System) {
    forall w :: w in s.sites ==> SiteOk(w, s.sites[w], s.served)
  }

  /** The service has read this request from its requester's topic. */
  predicate Delivered(sites: map<Writer, Site>, r: Request) {
    && r.0.writer in sites
    && var p := sites[r.0.writer];
       p.requestsRead <= |p.log| && r in p.log[..p.requestsRead]
  }

  predicate Answered(served: seq<Answer>, id: Guid) {
    exists k :: 0 <= k < |served| && served[k].id == id
  }

  predicate DistinctAnswers(served: seq<Answer>) {
    forall i, j :: 0 <= i < j < |served| ==> served[i].id != served[j].id
  }

  /** What the service holds was delivered to it, and is in one place only. */
  ghost predicate ServiceOk(s: System) {
    && (forall k :: 0 <= k < |s.queue| ==>
          Delivered(s.sites, s.queue[k]) && s.queue[k].0 !in s.open && !Answered(s.served, s.queue[k].0))
    && (forall id :: id in s.open ==> Delivered(s.sites, (id, s.open[id])) && !Answered(s.served, id))
    && (forall k :: 0 <= k < |s.served| ==> Delivered(s.sites, (s.served[k].id, s.served[k].body)))
    && DistinctIds(s.queue) && DistinctAnswers(s.served)
  }

  /** What was delivered to the service it still holds or has answered. */
  predicate Held(queue: seq<Request>, open: map<Guid, Sample>, served: seq<Answer>, r: Request) {
    r in queue || r.0 in open || Answered(served, r.0)
  }

  ghost predicate NothingLost(s: System) {
    forall w, j :: w in s.sites && 0 <= j < s.sites[w].requestsRead <= |s.sites[w].log| ==>
                     Held(s.queue, s.open, s.served, s.sites[w].log[j])
  }

  predicate RepliesOk(s: System) {
    && |s.replyLog| == |s.served|
    && forall k :: 0 <= k < |s.served| ==> s.replyLog[k] == Announce(s.served[k].id, s.served[k].outcome)
  }

  ghost predicate Inv(s: System) {
    SitesOk(s) && ServiceOk(s) && NothingLost(s) && RepliesOk(s)
  }

  // ---- every step keeps it ----

  lemma {:induction false} OutcomeOfUnanswered(served: seq<Answer>, id: Guid)
    ensures !Answered(served, id) <==> OutcomeOf(served, id).Unset?
  {
    if served != [] {
      var init := served[..|served| - 1];
      OutcomeOfUnanswered(init, id);
      if Answered(served, id) && served[|served| - 1].id != id {
        var k :| 0 <= k < |served| && served[k].id == id;
        assert init[k].id == id;
      }
      if Answered(init, id) {
        var k :| 0 <= k < |init| && init[k].id == id;
        assert served[k].id == id;
      }
    }
  }

  lemma OutcomeOfAppend(served: seq<Answer>, a: Answer, id: Guid)
    ensures OutcomeOf(served + [a], id) == if a.id == id then Set(a.outcome) else OutcomeOf(served, id)
  {
    assert (served + [a])[..|served|] == served;
  }

  lemma IssueKeepsRequester(w: Writer, r: Requester, seen: seq<Answer>)
    requires RequesterOk(w, r, seen) && r.sessionId.sequence + 1 < HALF
    requires !Answered(seen, IdOf(w, |r.promises|))
    ensures RequesterOk(w, Issue(r), seen)
    ensures Issue(r).sessionId == IdOf(w, |r.promises|) && Issue(r).promises == r.promises + [Unset]
  {
    hide OutcomeOf, Answered, Valid, Increment;
    OutcomeOfUnanswered(seen, IdOf(w, |r.promises|));
    NextId(w, r);
    NotPending(w, r, seen);
    assert Issue(r).requests.Keys == r.requests.Keys + {IdOf(w, |r.promises|)};
  }

  lemma NotPending(w: Writer, r: Requester, seen: seq<Answer>)
    requires RequesterOk(w, r, seen) && r.sessionId.sequence + 1 < HALF
    ensures IdOf(w, |r.promises|) !in r.requests
  {
    hide OutcomeOf;
  }

  lemma NextId(w: Writer, r: Requester)
    requires r.sessionId.writer == w && |r.promises| == r.sessionId.sequence && r.sessionId.sequence + 1 < HALF
    ensures Increment(r.sessionId) == IdOf(w, |r.promises|)
  {
  }

  lemma ReplyKeepsRequester(w: Writer, r: Requester, seen: seq<Answer>, a: Answer)
    requires RequesterOk(w, r, seen) && Small(a.id) && !Answered(seen, a.id)
    requires a.id.writer == w ==> a.id.sequence <= |r.promises|
    ensures RequesterOk(w, OnReply(r, Announce(a.id, a.outcome)), seen + [a])
  {
    hide OutcomeOf, Valid;
    SmallIdsAreUnambiguous(r, a.id, a.outcome);
    if a.id.writer == w {
      OutcomeOfUnanswered(seen, a.id);
      PendingIfUnset(w, r, seen, a.id.sequence - 1);
      ResolveKeepsRequester(w, r, seen, a);
    } else {
      IgnoreKeepsRequester(w, r, seen, a);
    }
  }

  lemma ResolveKeepsRequester(w: Writer, r: Requester, seen: seq<Answer>, a: Answer)
    requires RequesterOk(w, r, seen) && a.id in r.requests
    ensures RequesterOk(w, Resolve(r, a.id, a.outcome), seen + [a])
  {
    var s := Resolve(r, a.id, a.outcome);
    forall i | 0 <= i < |s.promises| ensures s.promises[i] == OutcomeOf(seen + [a], IdOf(w, i)) {
      OutcomeOfAppend(seen, a, IdOf(w, i));
    }
  }

  lemma IgnoreKeepsRequester(w: Writer, r: Requester, seen: seq<Answer>, a: Answer)
    requires RequesterOk(w, r, seen) && a.id.writer != w
    ensures RequesterOk(w, r, seen + [a])
  {
    hide OutcomeOf, Valid;
    forall i | 0 <= i < |r.promises| ensures r.promises[i] == OutcomeOf(seen + [a], IdOf(w, i)) {
      OutcomeOfAppend(seen, a, IdOf(w, i));
    }
  }

  lemma PendingIfUnset(w: Writer, r: Requester, seen: seq<Answer>, i: nat)
    requires RequesterOk(w, r, seen) && i < |r.promises|
    ensures IdOf(w, i) in r.requests <==> r.promises[i].Unset?
    ensures IdOf(w, i) in r.requests ==> r.requests[IdOf(w, i)] == i
  {
    if r.promises[i].Unset? {
      assert i in r.requests.Values;
      var id :| id in r.requests && r.requests[id] == i;
      assert id == IdOf(w, i);
    }
  }

  // ---- topics ----

  lemma IssueKeepsTopic(w: Writer, p: Site, body: Sample)
    requires TopicOk(w, p) && |p.bodies| + 1 < HALF
    ensures var id := IdOf(w, |p.bodies|);
            TopicOk(w, p.(requester := p.requester.(promises := p.requester.promises + [Unset]),
                          bodies := p.bodies + [body], sending := p.sending[id := body]))
  {
  }

  /** Only the number of promises matters to a topic. */
  lemma TopicFrame(w: Writer, p: Site, r: Requester, n: nat)
    requires TopicOk(w, p) && |r.promises| == |p.requester.promises|
    ensures TopicOk(w, p.(requester := r, repliesRead := n))
  {
  }

  lemma SendKeepsTopic(w: Writer, p: Site, id: Guid)
    requires TopicOk(w, p) && id in p.sending
    ensures TopicOk(w, p.(sending := p.sending - {id}, log := p.log + [(id, p.sending[id])]))
  {
    hide IssuedAs;
    var q := p.(sending := p.sending - {id}, log := p.log + [(id, p.sending[id])]);
    assert IssuedAs(w, p.bodies, (id, p.sending[id]));
    assert DistinctIds(q.log);
    forall i | 0 <= i < |q.bodies| ensures IdOf(w, i) in q.sending || (IdOf(w, i), q.bodies[i]) in q.log {
      SentOrSending(w, p, id, i);
    }
  }

  lemma SentOrSending(w: Writer, p: Site, id: Guid, i: nat)
    requires TopicOk(w, p) && id in p.sending && i < |p.bodies|
    ensures IdOf(w, i) in p.sending - {id} || (IdOf(w, i), p.bodies[i]) in p.log + [(id, p.sending[id])]
  {
    hide OutcomeOf, Valid;
    assert IssuedAs(w, p.bodies, (id, p.sending[id]));
    assert (p.log + [(id, p.sending[id])])[|p.log|] == (id, p.sending[id]);
  }

  // ---- what is delivered stays delivered ----

  /** Topics only grow, and are only read further. */
  predicate Grows(p: Site, q: Site) {
    p.log <= q.log && p.requestsRead <= q.requestsRead <= |q.log|
  }

  lemma DeliveredStays(sites: map<Writer, Site>, w: Writer, q: Site, r: Request)
    requires w in sites && Grows(sites[w], q) && Delivered(sites, r)
    ensures Delivered(sites[w := q], r)
  {
    hide OutcomeOf, Valid;
    if r.0.writer == w {
      var p := sites[w];
      assert p.log[..p.requestsRead] <= q.log[..q.requestsRead];
    }
  }

  lemma ServiceFrame(s: System, w: Writer, q: Site)
    requires ServiceOk(s) && w in s.sites && Grows(s.sites[w], q)
    ensures ServiceOk(s.(sites := s.sites[w := q]))
  {
    hide OutcomeOf, Valid;
    forall r | Delivered(s.sites, r) ensures Delivered(s.sites[w := q], r) {
      DeliveredStays(s.sites, w, q, r);
    }
  }

  /** A step of one site that delivers nothing new. */
  lemma SiteStep(s: System, w: Writer, q: Site)
    requires Inv(s) && w in s.sites
    requires Grows(s.sites[w], q) && q.requestsRead == s.sites[w].requestsRead
    requires SiteOk(w, q, s.served)
    ensures Inv(s.(sites := s.sites[w := q]))
  {
    hide OutcomeOf, Valid;
    ServiceFrame(s, w, q);
    HeldFrame(s, w, q);
  }

  lemma HeldFrame(s: System, w: Writer, q: Site)
    requires NothingLost(s) && w in s.sites && s.sites[w].requestsRead <= |s.sites[w].log|
    requires Grows(s.sites[w], q) && q.requestsRead == s.sites[w].requestsRead
    ensures NothingLost(s.(sites := s.sites[w := q]))
  {
    hide OutcomeOf, Valid;
    var t := s.(sites := s.sites[w := q]);
    forall v, j | v in t.sites && 0 <= j < t.sites[v].requestsRead <= |t.sites[v].log|
      ensures Held(t.queue, t.open, t.served, t.sites[v].log[j])
    {
      assert t.sites[v].log[j] == s.sites[v].log[j];
    }
  }

  // ---- the steps ----

  lemma IssueKeeps(s: System, w: Writer, body: Sample)
    requires Inv(s) && Enabled(s, IssueRequest(w, body))
    ensures Inv(Apply(s, IssueRequest(w, body)))
  {
    hide OutcomeOf, Valid;
    var p := s.sites[w];
    var r := Issue(p.requester);
    NewIdIsUnanswered(s, w);
    IssueKeepsRequester(w, p.requester, s.served[..p.repliesRead]);
    IssueKeepsTopic(w, p, body);
    var q := p.(requester := p.requester.(promises := p.requester.promises + [Unset]),
                bodies := p.bodies + [body], sending := p.sending[r.sessionId := body]);
    TopicFrame(w, q, r, p.repliesRead);
    SiteStep(s, w, q.(requester := r));
  }

  lemma NewIdIsUnanswered(s: System, w: Writer)
    requires Inv(s) && w in s.sites && |s.sites[w].requester.promises| + 1 < HALF
    ensures var p := s.sites[w]; !Answered(s.served[..p.repliesRead], IdOf(w, |p.requester.promises|))
  {
    hide OutcomeOf, Valid;
    var p := s.sites[w];
    var id := IdOf(w, |p.requester.promises|);
    if Answered(s.served[..p.repliesRead], id) {
      var k :| 0 <= k < p.repliesRead && s.served[k].id == id;
      AnsweredIsIssued(s, k);
      assert false;
    }
  }

  /** An answered request was issued by the requester its id names. */
  lemma AnsweredIsIssued(s: System, k: nat)
    requires Inv(s) && k < |s.served|
    ensures var a := s.served[k];
            a.id.writer in s.sites && IssuedAs(a.id.writer, s.sites[a.id.writer].bodies, (a.id, a.body)) && Small(a.id)
  {
    hide OutcomeOf, Valid;
    var a := s.served[k];
    assert Delivered(s.sites, (a.id, a.body));
    var p := s.sites[a.id.writer];
    var j :| 0 <= j < p.requestsRead && p.log[j] == (a.id, a.body);
    assert IssuedAs(a.id.writer, p.bodies, p.log[j]);
  }

  lemma SendKeeps(s: System, w: Writer, id: Guid)
    requires Inv(s) && Enabled(s, SendRequest(w, id))
    ensures Inv(Apply(s, SendRequest(w, id)))
  {
    hide OutcomeOf, Valid;
    var p := s.sites[w];
    SendKeepsTopic(w, p, id);
    SiteStep(s, w, p.(sending := p.sending - {id}, log := p.log + [(id, p.sending[id])]));
  }

  lemma ReceiveKeeps(s: System, w: Writer)
    requires Inv(s) && Enabled(s, ReceiveReply(w))
    ensures Inv(Apply(s, ReceiveReply(w)))
  {
    var p := s.sites[w];
    var n := p.repliesRead;
    AnsweredIsIssued(s, n);
    ReceiveKeepsSite(w, p, s.served);
    SiteStep(s, w, p.(requester := OnReply(p.requester, s.replyLog[n]), repliesRead := n + 1));
  }

  lemma ReceiveKeepsSite(w: Writer, p: Site, served: seq<Answer>)
    requires SiteOk(w, p, served) && p.repliesRead < |served| && DistinctAnswers(served)
    requires var a := served[p.repliesRead]; Small(a.id) && (a.id.writer == w ==> a.id.sequence <= |p.bodies|)
    ensures var a := served[p.repliesRead];
            SiteOk(w, p.(requester := OnReply(p.requester, Announce(a.id, a.outcome)),
                         repliesRead := p.repliesRead + 1), served)
  {
    hide OutcomeOf, Valid;
    var n := p.repliesRead;
    var a := served[n];
    NextAnswer(served, n);
    ReplyKeepsRequester(w, p.requester, served[..n], a);
    ReplyKeepsCount(p.requester, Announce(a.id, a.outcome));
    TopicFrame(w, p, OnReply(p.requester, Announce(a.id, a.outcome)), n + 1);
  }

  lemma ReplyKeepsCount(r: Requester, m: Reply)
    requires Valid(r)
    ensures |OnReply(r, m).promises| == |r.promises|
  {
  }

  lemma NextAnswer(served: seq<Answer>, n: nat)
    requires n < |served| && DistinctAnswers(served)
    ensures served[..n + 1] == served[..n] + [served[n]] && !Answered(served[..n], served[n].id)
  {
  }

  lemma DeliveredOnce(s: System, w: Writer, r: Request)
    requires SitesOk(s) && w in s.sites && s.sites[w].requestsRead < |s.sites[w].log|
    requires r == s.sites[w].log[s.sites[w].requestsRead]
    ensures forall body :: !Delivered(s.sites, (r.0, body))
  {
    hide OutcomeOf, Valid;
    var p := s.sites[w];
    assert IssuedAs(w, p.bodies, r);
    assert forall j :: 0 <= j < p.requestsRead ==> p.log[j].0 != r.0;
  }

  lemma DeliverKeeps(s: System, w: Writer)
    requires Inv(s) && Enabled(s, DeliverRequest(w))
    ensures Inv(Apply(s, DeliverRequest(w)))
  {
    hide OutcomeOf, Valid, SiteOk, Answered, Held, RequesterOk;
    var p := s.sites[w];
    var r := p.log[p.requestsRead];
    var q := p.(requestsRead := p.requestsRead + 1);
    DeliveredOnce(s, w, r);
    NowDelivered(s, w, p, q, r);
    DeliverKeepsService(s, w, q, r);
    DeliverKeepsHeld(s, w, q, r);
    DeliverKeepsSite(w, p, s.served);
  }

  lemma NowDelivered(s: System, w: Writer, p: Site, q: Site, r: Request)
    requires SitesOk(s) && w in s.sites && p == s.sites[w] && p.requestsRead < |p.log|
    requires r == p.log[p.requestsRead] && q == p.(requestsRead := p.requestsRead + 1)
    ensures Delivered(s.sites[w := q], r) && Grows(p, q)
  {
    hide RequesterOk;
    assert IssuedAs(w, p.bodies, r) by { assert SiteOk(w, p, s.served); }
    assert q.log[..q.requestsRead][p.requestsRead] == r;
  }

  lemma DeliverKeepsSite(w: Writer, p: Site, served: seq<Answer>)
    requires SiteOk(w, p, served) && p.requestsRead < |p.log|
    ensures SiteOk(w, p.(requestsRead := p.requestsRead + 1), served)
  {
  }

  lemma DeliverKeepsService(s: System, w: Writer, q: Site, r: Request)
    requires ServiceOk(s) && w in s.sites && Grows(s.sites[w], q)
    requires Delivered(s.sites[w := q], r) && forall body :: !Delivered(s.sites, (r.0, body))
    ensures ServiceOk(s.(sites := s.sites[w := q], queue := s.queue + [r]))
  {
    hide OutcomeOf, Valid;
    ServiceFrame(s, w, q);
    forall k | 0 <= k < |s.queue| ensures s.queue[k].0 != r.0 {
      assert s.queue[k] == (s.queue[k].0, s.queue[k].1);
    }
    assert forall id :: id in s.open ==> id != r.0;
    assert forall k :: 0 <= k < |s.served| ==> s.served[k].id != r.0;
  }

  lemma DeliverKeepsHeld(s: System, w: Writer, q: Site, r: Request)
    requires NothingLost(s) && w in s.sites && s.sites[w].requestsRead < |s.sites[w].log|
    requires r == s.sites[w].log[s.sites[w].requestsRead]
    requires q == s.sites[w].(requestsRead := s.sites[w].requestsRead + 1)
    ensures NothingLost(s.(sites := s.sites[w := q], queue := s.queue + [r]))
  {
    hide OutcomeOf, Valid;
    var t := s.(sites := s.sites[w := q], queue := s.queue + [r]);
    assert t.queue[|s.queue|] == r;
    forall v, j | v in t.sites && 0 <= j < t.sites[v].requestsRead <= |t.sites[v].log|
      ensures Held(t.queue, t.open, t.served, t.sites[v].log[j])
    {
      if v != w || j < s.sites[w].requestsRead {
        assert Held(s.queue, s.open, s.served, s.sites[v].log[j]);
      }
    }
  }

  lemma TakeKeeps(s: System)
    requires Inv(s) && Enabled(s, TakeRequest)
    ensures Inv(Apply(s, TakeRequest))
  {
    hide OutcomeOf, Valid, SiteOk, Delivered, Answered, Held;
    TakeKeepsService(s);
    TakeKeepsHeld(s);
    assert SitesOk(Apply(s, TakeRequest));
  }

  lemma TakeKeepsHeld(s: System)
    requires NothingLost(s) && s.queue != []
    ensures NothingLost(Apply(s, TakeRequest))
  {
    hide OutcomeOf, Valid, Answered;
    var t := Apply(s, TakeRequest);
    forall w, j | w in t.sites && 0 <= j < t.sites[w].requestsRead <= |t.sites[w].log|
      ensures Held(t.queue, t.open, t.served, t.sites[w].log[j])
    {
      var r := s.sites[w].log[j];
      assert Held(s.queue, s.open, s.served, r);
      if r in s.queue && r != s.queue[0] {
        assert r in s.queue[1..];
      }
    }
  }

  lemma TakeKeepsService(s: System)
    requires ServiceOk(s) && s.queue != []
    ensures ServiceOk(Apply(s, TakeRequest))
  {
    hide OutcomeOf, Valid;
    var t := Apply(s, TakeRequest);
    var r := s.queue[0];
    assert r == (r.0, r.1) && Delivered(s.sites, r) && !Answered(s.served, r.0);
    forall k | 0 <= k < |t.queue| ensures t.queue[k] == s.queue[k + 1] && t.queue[k].0 != r.0 {
    }
  }

  lemma AnsweredAppend(served: seq<Answer>, a: Answer, id: Guid)
    ensures Answered(served + [a], id) <==> Answered(served, id) || a.id == id
  {
    hide OutcomeOf, Valid;
    if Answered(served, id) {
      var k :| 0 <= k < |served| && served[k].id == id;
      assert (served + [a])[k].id == id;
    }
    assert (served + [a])[|served|] == a;
  }

  /** After the answer exactly one more id is answered. */
  ghost predicate AnswersOneMore(served: seq<Answer>, a: Answer) {
    forall i :: Answered(served + [a], i) <==> Answered(served, i) || a.id == i
  }

  lemma OneMoreAnswer(served: seq<Answer>, a: Answer)
    ensures AnswersOneMore(served, a)
  {
    hide OutcomeOf, Valid;
    forall i ensures Answered(served + [a], i) <==> Answered(served, i) || a.id == i {
      AnsweredAppend(served, a, i);
    }
  }

  lemma AnswerKeeps(s: System, id: Guid, outcome: Outcome)
    requires Inv(s) && Enabled(s, AnswerRequest(id, outcome))
    ensures Inv(Apply(s, AnswerRequest(id, outcome)))
  {
    hide OutcomeOf, Valid;
    OneMoreAnswer(s.served, Answer(id, s.open[id], outcome));
    AnswerKeepsService(s, id, outcome);
    AnswerKeepsHeld(s, id, outcome);
    AnswerKeepsSites(s, id, outcome);
    AnswerKeepsReplies(s, id, outcome);
  }

  lemma AnswerKeepsReplies(s: System, id: Guid, outcome: Outcome)
    requires RepliesOk(s) && id in s.open
    ensures RepliesOk(Apply(s, AnswerRequest(id, outcome)))
  {
  }

  lemma AnswerKeepsSites(s: System, id: Guid, outcome: Outcome)
    requires SitesOk(s) && id in s.open
    ensures SitesOk(Apply(s, AnswerRequest(id, outcome)))
  {
    hide OutcomeOf, Valid;
    var t := Apply(s, AnswerRequest(id, outcome));
    forall w | w in t.sites ensures SiteOk(w, t.sites[w], t.served) {
      AnswerKeepsSite(w, s.sites[w], s.served, Answer(id, s.open[id], outcome));
    }
  }

  lemma AnswerKeepsSite(w: Writer, p: Site, served: seq<Answer>, a: Answer)
    requires SiteOk(w, p, served)
    ensures SiteOk(w, p, served + [a])
  {
    hide OutcomeOf, Valid;
    assert (served + [a])[..p.repliesRead] == served[..p.repliesRead];
  }

  lemma AnswerKeepsService(s: System, id: Guid, outcome: Outcome)
    requires ServiceOk(s) && id in s.open
    requires AnswersOneMore(s.served, Answer(id, s.open[id], outcome))
    ensures ServiceOk(Apply(s, AnswerRequest(id, outcome)))
  {
    hide OutcomeOf, Valid;
    var t := Apply(s, AnswerRequest(id, outcome));
    forall k | 0 <= k < |s.served| ensures s.served[k].id != id {
      assert !Answered(s.served, id);
    }
  }

  lemma AnswerKeepsHeld(s: System, id: Guid, outcome: Outcome)
    requires NothingLost(s) && id in s.open
    requires AnswersOneMore(s.served, Answer(id, s.open[id], outcome))
    ensures NothingLost(Apply(s, AnswerRequest(id, outcome)))
  {
    hide OutcomeOf, Valid;
    var t := Apply(s, AnswerRequest(id, outcome));
    forall w, j | w in t.sites && 0 <= j < t.sites[w].requestsRead <= |t.sites[w].log|
      ensures Held(t.queue, t.open, t.served, t.sites[w].log[j])
    {
      assert Held(s.queue, s.open, s.served, s.sites[w].log[j]);
    }
  }

  /** Every step keeps the invariant. */
  lemma StepKeeps(s: System, step: Step)
    requires Inv(s) && Enabled(s, step)
    ensures Inv(Apply(s, step))
  {
    hide *;
    match step
    case IssueRequest(w, body) => IssueKeeps(s, w, body);
    case SendRequest(w, id) => SendKeeps(s, w, id);
    case DeliverRequest(w) => DeliverKeeps(s, w);
    case TakeRequest => TakeKeeps(s);
    case AnswerRequest(id, outcome) => AnswerKeeps(s, id, outcome);
    case ReceiveReply(w) => ReceiveKeeps(s, w);
  }

  lemma {:induction false} RunKeeps(states: seq<System>, steps: seq<Step>, n: nat)
    requires IsRun(states, steps) && Inv(states[0]) && n <= |steps|
    ensures Inv(states[n])
  {
    hide OutcomeOf, Valid;
    if n > 0 {
      RunKeeps(states, steps, n - 1);
      StepOf(states, steps, n - 1);
      StepKeeps(states[n - 1], steps[n - 1]);
    }
  }

  lemma StepOf(states: seq<System>, steps: seq<Step>, i: nat)
    requires IsRun(states, steps) && i < |steps|
    ensures Enabled(states[i], steps[i]) && states[i + 1] == Apply(states[i], steps[i])
  {
  }

  lemma ReachableInv(s: System)
    requires Reachable(s)
    ensures Inv(s)
  {
    hide OutcomeOf, Valid;
    var writers, states, steps :| IsRun(states, steps) && states[0] == Initial(writers) && states[|steps|] == s;
    InitialInv(writers);
    RunKeeps(states, steps, |steps|);
  }

  lemma InitialInv(writers: set<Writer>)
    ensures Inv(Initial(writers))
  {
    var s := Initial(writers);
    forall w | w in s.sites ensures SiteOk(w, s.sites[w], s.served) {
      assert s.sites[w] == Site(NewRequester(w), [], map[], [], 0, 0);
    }
  }

  // ---- end to end ----

  /** The service answered request number i of w with this outcome, having been given the very
      body of that request, and w has read the reply. */
  predicate AnswerRead(s: System, w: Writer, i: nat, outcome: Outcome)
    requires w in s.sites && i < |s.sites[w].bodies| < HALF
  {
    var p := s.sites[w];
    exists k :: 0 <= k < p.repliesRead && k < |s.served| && s.served[k] == Answer(IdOf(w, i), p.bodies[i], outcome)
  }

  lemma {:induction false} OutcomeOfMeaning(served: seq<Answer>, id: Guid, outcome: Outcome)
    requires DistinctAnswers(served)
    ensures OutcomeOf(served, id) == Set(outcome) <==>
            exists k :: 0 <= k < |served| && served[k].id == id && served[k].outcome == outcome
  {
    if served != [] {
      var init := served[..|served| - 1];
      OutcomeOfMeaning(init, id, outcome);
      if exists k :: 0 <= k < |served| && served[k].id == id && served[k].outcome == outcome {
        var k :| 0 <= k < |served| && served[k].id == id && served[k].outcome == outcome;
        if k < |init| {
          assert init[k] == served[k] && served[|init|].id != id;
        }
      }
      if exists k :: 0 <= k < |init| && init[k].id == id && init[k].outcome == outcome {
        var k :| 0 <= k < |init| && init[k].id == id && init[k].outcome == outcome;
        assert served[k] == init[k] && served[|init|].id != id;
      }
    }
  }

  /** End-to-end correctness: in every reachable state, for every requester and every request it
      has made, the future holds a result or an exception exactly when the service produced that
      result, or threw, on that very request and the requester has read the reply. */
  lemma FutureHoldsOwnOutcome(s: System, w: Writer, i: nat, outcome: Outcome)
    requires Reachable(s) && w in s.sites && i < |s.sites[w].bodies|
    ensures |s.sites[w].bodies| == |s.sites[w].requester.promises| < HALF
    ensures s.sites[w].requester.promises[i] == Set(outcome) <==> AnswerRead(s, w, i, outcome)
  {
    hide OutcomeOf, Valid;
    ReachableInv(s);
    var p := s.sites[w];
    assert SiteOk(w, p, s.served);
    PrefixDistinct(s.served, p.repliesRead);
    OutcomeOfMeaning(s.served[..p.repliesRead], IdOf(w, i), outcome);
    AnswerReadMeaning(s, w, i, outcome);
  }

  lemma PrefixDistinct(served: seq<Answer>, n: nat)
    requires DistinctAnswers(served) && n <= |served|
    ensures DistinctAnswers(served[..n])
  {
  }

  lemma AnswerReadMeaning(s: System, w: Writer, i: nat, outcome: Outcome)
    requires Inv(s) && w in s.sites && i < |s.sites[w].bodies| < HALF && s.sites[w].repliesRead <= |s.served|
    ensures var seen := s.served[..s.sites[w].repliesRead];
            (exists k :: 0 <= k < |seen| && seen[k].id == IdOf(w, i) && seen[k].outcome == outcome)
            <==> AnswerRead(s, w, i, outcome)
  {
    hide OutcomeOf, Valid;
    var p := s.sites[w];
    var seen := s.served[..p.repliesRead];
    forall k | 0 <= k < |seen| && seen[k].id == IdOf(w, i) && seen[k].outcome == outcome
      ensures s.served[k] == Answer(IdOf(w, i), p.bodies[i], outcome)
    {
      AnswerHasBody(s, w, i, k);
    }
    if AnswerRead(s, w, i, outcome) {
      var k :| 0 <= k < p.repliesRead && k < |s.served| && s.served[k] == Answer(IdOf(w, i), p.bodies[i], outcome);
      assert seen[k].id == IdOf(w, i) && seen[k].outcome == outcome;
    }
  }

  lemma AnswerHasBody(s: System, w: Writer, i: nat, k: nat)
    requires Inv(s) && w in s.sites && i < |s.sites[w].bodies| < HALF && k < |s.served| && s.served[k].id == IdOf(w, i)
    ensures s.served[k].body == s.sites[w].bodies[i]
  {
    hide OutcomeOf, Valid;
    AnsweredIsIssued(s, k);
    IssuedBody(w, s.sites[w].bodies, (s.served[k].id, s.served[k].body), i);
  }

  lemma IssuedBody(w: Writer, bodies: seq<Sample>, r: Request, i: nat)
    requires IssuedAs(w, bodies, r) && i + 1 < HALF && r.0 == IdOf(w, i)
    ensures i < |bodies| && r.1 == bodies[i]
  {
  }

  /** Nothing is left to do: no request unsent, undelivered or unanswered, no reply unread. */
  predicate Drained(s: System) {
    && s.queue == [] && s.open == map[]
    && forall w :: w in s.sites ==>
         && s.sites[w].sending == map[]
         && s.sites[w].requestsRead == |s.sites[w].log|
         && s.sites[w].repliesRead == |s.replyLog|
  }

  /** No future is forgotten: once everything is drained each one has been resolved. */
  lemma DrainedMeansResolved(s: System, w: Writer, i: nat)
    requires Reachable(s) && Drained(s) && w in s.sites && i < |s.sites[w].requester.promises|
    ensures s.sites[w].requester.promises[i].Set?
  {
    hide OutcomeOf, Answered, Held, Valid, IssuedAs, Reachable;
    ReachableInv(s);
    var p := s.sites[w];
    assert SiteOk(w, p, s.served);
    DrainedMeansAnswered(s, w, p, i);
    OutcomeOfUnanswered(s.served, IdOf(w, i));
    assert s.served[..|s.served|] == s.served;
  }

  lemma DrainedMeansAnswered(s: System, w: Writer, p: Site, i: nat)
    requires NothingLost(s) && Drained(s) && w in s.sites && p == s.sites[w] && TopicOk(w, p) && i < |p.bodies|
    ensures Answered(s.served, IdOf(w, i))
  {
    hide OutcomeOf, Valid;
    assert (IdOf(w, i), p.bodies[i]) in p.log;
    var j :| 0 <= j < |p.log| && p.log[j] == (IdOf(w, i), p.bodies[i]);
    assert Held(s.queue, s.open, s.served, p.log[j]);
  }

  /** The service never answers a request twice, nor one that nobody made. */
  lemma AnsweredOnce(s: System, j: nat, k: nat)
    requires Reachable(s) && j < |s.served| && k < |s.served| && s.served[j].id == s.served[k].id
    ensures j == k
    ensures s.served[j].id.writer in s.sites
    ensures IssuedAs(s.served[j].id.writer, s.sites[s.served[j].id.writer].bodies, (s.served[j].id, s.served[j].body))
  {
    hide OutcomeOf, Valid;
    ReachableInv(s);
    AnsweredIsIssued(s, j);
    DistinctPositions(s.served, j, k);
  }

  lemma DistinctPositions(served: seq<Answer>, j: nat, k: nat)
    requires DistinctAnswers(served) && j < |served| && k < |served| && served[j].id == served[k].id
    ensures j == k
  {
  }

  // ---- what the participants were told ----

  /** The requests that w was given, in order. */
  function Asked(steps: seq<Step>, w: Writer): seq<Sample> {
    if steps == [] then [] else
    var last := steps[|steps| - 1];
    Asked(steps[..|steps| - 1], w) + (if last.IssueRequest? && last.w == w then [last.body] else [])
  }

  /** What the service made of its requests, in order. */
  function Made(steps: seq<Step>): seq<(Guid, Outcome)> {
    if steps == [] then [] else
    var last := steps[|steps| - 1];
    Made(steps[..|steps| - 1]) + (if last.AnswerRequest? then [(last.id, last.outcome)] else [])
  }

  /** Among the first n things the service made is this outcome for id. */
  predicate MadeOf(made: seq<(Guid, Outcome)>, n: nat, id: Guid, outcome: Outcome) {
    exists k :: 0 <= k < n && k < |made| && made[k] == (id, outcome)
  }

  /** The histories are those of the steps. */
  predicate Recorded(s: System, steps: seq<Step>, w: Writer) {
    && (w in s.sites ==> s.sites[w].bodies == Asked(steps, w))
    && |s.served| == |Made(steps)|
    && forall k :: 0 <= k < |s.served| ==> (s.served[k].id, s.served[k].outcome) == Made(steps)[k]
  }

  lemma StepIsRecorded(s: System, steps: seq<Step>, step: Step, w: Writer)
    requires Recorded(s, steps, w) && Enabled(s, step)
    ensures Recorded(Apply(s, step), steps + [step], w)
  {
    hide Valid, OnReply, Issue, Announce;
    assert (steps + [step])[..|steps|] == steps;
  }

  lemma {:induction false} RunIsRecorded(states: seq<System>, steps: seq<Step>, n: nat, w: Writer)
    requires IsRun(states, steps) && Recorded(states[0], [], w) && n <= |steps|
    ensures Recorded(states[n], steps[..n], w)
  {
    hide Recorded, Enabled, Apply;
    if n == 0 {
      assert steps[..0] == [];
    } else {
      RunIsRecorded(states, steps, n - 1, w);
      StepAt(states, steps, n - 1);
      StepIsRecorded(states[n - 1], steps[..n - 1], steps[n - 1], w);
      assert steps[..n - 1] + [steps[n - 1]] == steps[..n];
    }
  }

  lemma StepAt(states: seq<System>, steps: seq<Step>, i: nat)
    requires IsRun(states, steps) && i < |steps|
    ensures Enabled(states[i], steps[i]) && states[i + 1] == Apply(states[i], steps[i])
  {
    hide Enabled, Apply;
  }

  /** What a caller is given, over whole runs: the future of the request that w was given as number i
      holds an outcome exactly when the service made that outcome of the request under that number,
      and w has read the reply. */
  lemma CallersGetTheirOutcome(states: seq<System>, steps: seq<Step>, writers: set<Writer>, w: Writer, i: nat,
                               outcome: Outcome)
    requires IsRun(states, steps) && states[0] == Initial(writers) && w in states[|steps|].sites
    requires i < |Asked(steps, w)|
    ensures var s := states[|steps|];
            && s.sites[w].bodies == Asked(steps, w) && i < |s.sites[w].requester.promises| < HALF
            && (s.sites[w].requester.promises[i] == Set(outcome) <==>
                  MadeOf(Made(steps), s.sites[w].repliesRead, IdOf(w, i), outcome))
  {
    hide Asked, Made, Valid, Enabled, Apply, OutcomeOf, Inv;
    var s := states[|steps|];
    NothingRecorded(writers, w);
    RunIsRecorded(states, steps, |steps|, w);
    assert steps[..|steps|] == steps;
    assert Reachable(s);
    FutureHoldsOwnOutcome(s, w, i, outcome);
    ReachableInv(s);
    ReadAnswerIsMade(s, steps, w, i, outcome);
  }

  lemma ReadAnswerIsMade(s: System, steps: seq<Step>, w: Writer, i: nat, outcome: Outcome)
    requires Inv(s) && Recorded(s, steps, w) && w in s.sites && i < |s.sites[w].bodies| < HALF
    ensures AnswerRead(s, w, i, outcome) <==> MadeOf(Made(steps), s.sites[w].repliesRead, IdOf(w, i), outcome)
  {
    hide Asked, Made, Inv;
    var made, n := Made(steps), s.sites[w].repliesRead;
    if AnswerRead(s, w, i, outcome) {
      var k :| 0 <= k < n && k < |s.served| && s.served[k] == Answer(IdOf(w, i), s.sites[w].bodies[i], outcome);
      assert made[k] == (IdOf(w, i), outcome);
    }
    if MadeOf(made, n, IdOf(w, i), outcome) {
      var k :| 0 <= k < n && k < |made| && made[k] == (IdOf(w, i), outcome);
      assert (s.served[k].id, s.served[k].outcome) == made[k];
      AnswerHasBody(s, w, i, k);
      assert s.served[k] == Answer(IdOf(w, i), s.sites[w].bodies[i], outcome);
    }
  }

  lemma NothingRecorded(writers: set<Writer>, w: Writer)
    ensures Recorded(Initial(writers), [], w)
  {
  }
}
