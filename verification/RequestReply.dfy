/** Remote procedure calls: the requester that matches replies with promises by id, and the two
    kinds of service that answer (src/LetsTalk/RequestReplyImpl.hpp,
    src/LetsTalk/Participant.cpp lines 324-338). */
module RequestReply {
  import opened Common
  import opened Guids
  import opened Queues

  /** What a provider makes of a request. */
  datatype Outcome = Result(body: Sample) | Threw

  /** A reply as it travels: the related id, and a body. */
  datatype Reply = Reply(related: Guid, body: Sample)

  /** doPublish with its bad flag: a failure is sent under the bad version of the id, with the
      image of a default-constructed reply. */
  function Announce(id: Guid, outcome: Outcome): Reply {
    match outcome
    case Result(body) => Reply(id, body)
    case Threw => Reply(MakeBadVersion(id), [])
  }

  datatype Promise = Unset | Set(outcome: Outcome)

  /** A requester: the counter, the pending promises by id, and all promises ever handed out,
      in order. The pending ones are represented by their place in that order. */
  datatype Requester = Requester(sessionId: Guid, requests: map<Guid, nat>, promises: seq<Promise>)

  function NewRequester(w: Writer): Requester {
    Requester(Guid(w, 0), map[], [])
  }

  /** The promises still unset are exactly the pending ones, each under one id. */
  ghost predicate Valid(r: Requester) {
    && (forall id :: id in r.requests ==> r.requests[id] < |r.promises| && r.promises[r.requests[id]].Unset?)
    && (forall i, j :: i in r.requests && j in r.requests && r.requests[i] == r.requests[j] ==> i == j)
    && (forall k :: 0 <= k < |r.promises| && r.promises[k].Unset? ==> k in r.requests.Values)
  }

  /** The locked part of request. An id that is pending already (after the counter has gone round)
      has had its future taken, which raises an exception; otherwise a new promise is made. */
  function Issue(r: Requester): (s: Requester)
    requires Valid(r)
    ensures Valid(s)
  {
    var id := Increment(r.sessionId);
    if id in r.requests then r.(sessionId := id)
    else
      var s := Requester(id, r.requests[id := |r.promises|], r.promises + [Unset]);
      assert Valid(s) by { IssueKeeps(r, id); }
      s
  }

  lemma IssueKeeps(r: Requester, id: Guid)
    requires Valid(r) && id !in r.requests
    ensures Valid(Requester(id, r.requests[id := |r.promises|], r.promises + [Unset]))
  {
    var s := Requester(id, r.requests[id := |r.promises|], r.promises + [Unset]);
    forall k | 0 <= k < |s.promises| && s.promises[k].Unset? ensures k in s.requests.Values {
      if k < |r.promises| {
        var i :| i in r.requests && r.requests[i] == k;
        assert s.requests[i] == k;
      } else {
        assert s.requests[id] == k;
      }
    }
  }

  /** Setting the promise of a pending id and erasing it. A promise must not be set twice. */
  function Resolve(r: Requester, id: Guid, outcome: Outcome): (s: Requester)
    requires Valid(r) && id in r.requests
    ensures Valid(s)
  {
    assert r.promises[r.requests[id]].Unset?;
    var s := r.(requests := r.requests - {id}, promises := r.promises[r.requests[id] := Set(outcome)]);
    assert Valid(s) by { ResolveKeeps(r, id, outcome); }
    s
  }

  lemma ResolveKeeps(r: Requester, id: Guid, outcome: Outcome)
    requires Valid(r) && id in r.requests
    ensures Valid(r.(requests := r.requests - {id}, promises := r.promises[r.requests[id] := Set(outcome)]))
  {
    var s := r.(requests := r.requests - {id}, promises := r.promises[r.requests[id] := Set(outcome)]);
    forall i | i in s.requests
      ensures s.requests[i] == r.requests[i] != r.requests[id] && s.promises[s.requests[i]].Unset?
    {
    }
    forall k | 0 <= k < |s.promises| && s.promises[k].Unset? ensures k in s.requests.Values {
      var i :| i in r.requests && r.requests[i] == k;
      assert i != id && s.requests[i] == k;
    }
  }

  /** onReply */
  function OnReply(r: Requester, m: Reply): (s: Requester)
    requires Valid(r)
    ensures Valid(s)
  {
    var bad := MakeBadVersion(m.related);
    if m.related in r.requests then Resolve(r, m.related, Result(m.body))
    else if bad in r.requests then Resolve(r, bad, Threw)
    else r
  }

  // ---- the failure encoding ----

  /** What an outcome for id ought to do: resolve id alone, or nothing if id is not pending. */
  function Intended(r: Requester, id: Guid, outcome: Outcome): Requester
    requires Valid(r)
  {
    if id in r.requests then Resolve(r, id, outcome) else r
  }

  lemma ResolveDiffers(r: Requester, i: Guid, j: Guid, a: Outcome, b: Outcome)
    requires Valid(r) && i in r.requests && j in r.requests && (i != j || a != b)
    ensures Resolve(r, i, a) != Resolve(r, j, b)
  {
    if i != j {
      assert j in Resolve(r, i, a).requests && j !in Resolve(r, j, b).requests;
    } else {
      assert Resolve(r, i, a).promises[r.requests[i]] != Resolve(r, j, b).promises[r.requests[i]];
    }
  }

  lemma ResolveChanges(r: Requester, i: Guid, a: Outcome)
    requires Valid(r) && i in r.requests
    ensures Resolve(r, i, a) != r
  {
  }

  /** For every requester state: the announcement of a result is understood exactly when its id
      is pending or the swapped id is not; that of a failure exactly when the swapped id is not
      pending. */
  lemma AnnouncementUnderstood(r: Requester, id: Guid, outcome: Outcome)
    requires Valid(r)
    ensures OnReply(r, Announce(id, outcome)) == Intended(r, id, outcome)
            <==> MakeBadVersion(id) !in r.requests || (outcome.Result? && id in r.requests)
  {
    var bad := MakeBadVersion(id);
    BadVersionInvolution(id);
    if bad in r.requests {
      ResolveChanges(r, bad, Threw);
      ResolveChanges(r, bad, Result([]));
      if id in r.requests && outcome.Threw? {
        ResolveDiffers(r, bad, id, Result([]), Threw);
      }
    }
  }

  /** Below 2^32 the encoding is unambiguous: an announcement resolves the id it is for, and no
      other, with its own outcome; for an id that is not pending it changes nothing. */
  lemma SmallIdsAreUnambiguous(r: Requester, id: Guid, outcome: Outcome)
    requires Valid(r) && Small(id) && (forall i :: i in r.requests ==> Small(i))
    ensures OnReply(r, Announce(id, outcome)) == Intended(r, id, outcome)
  {
    BadVersionOfSmall(id);
    AnnouncementUnderstood(r, id, outcome);
  }

  /** Beyond 2^32 it is not: with both halves equal, a failure arrives as an empty result. */
  lemma EqualHalvesFailAsResults(r: Requester, id: Guid)
    requires Valid(r) && id in r.requests && id.sequence == HALF + 1
    ensures OnReply(r, Announce(id, Threw)) == Resolve(r, id, Result([])) != Intended(r, id, Threw)
  {
    BadVersionFixedPoints(id);
    assert Announce(id, Threw) == Reply(id, []);
    ResolveDiffers(r, id, id, Result([]), Threw);
  }

  // ---- conservation ----

  /** What can happen to a requester: a call, or any reply at all, from anyone. */
  datatype Input = Call | Receive(reply: Reply)

  function Feed(r: Requester, input: Input): (s: Requester)
    requires Valid(r)
    ensures Valid(s)
  {
    match input
    case Call => Issue(r)
    case Receive(m) => OnReply(r, m)
  }

  function FeedAll(r: Requester, inputs: seq<Input>): (s: Requester)
    requires Valid(r)
    ensures Valid(s)
    decreases |inputs|
  {
    if inputs == [] then r else FeedAll(Feed(r, inputs[0]), inputs[1..])
  }

  /** s came later than r: no promise vanished, and none that was set was set again. */
  predicate Later(r: Requester, s: Requester) {
    |r.promises| <= |s.promises|
    && forall k :: 0 <= k < |r.promises| && r.promises[k].Set? ==> s.promises[k] == r.promises[k]
  }

  lemma FeedIsLater(r: Requester, input: Input)
    requires Valid(r)
    ensures Later(r, Feed(r, input))
  {
  }

  lemma {:induction false} FeedAllIsLater(r: Requester, inputs: seq<Input>)
    requires Valid(r)
    ensures Later(r, FeedAll(r, inputs))
    decreases |inputs|
  {
    if inputs != [] {
      FeedIsLater(r, inputs[0]);
      FeedAllIsLater(Feed(r, inputs[0]), inputs[1..]);
    }
  }

  /** Places of the promises that are fulfilled, failed, and pending. */
  function Fulfilled(r: Requester): set<nat> {
    set k | 0 <= k < |r.promises| && r.promises[k].Set? && r.promises[k].outcome.Result?
  }

  function Failed(r: Requester): set<nat> {
    set k | 0 <= k < |r.promises| && r.promises[k].Set? && r.promises[k].outcome.Threw?
  }

  function Pending(r: Requester): set<nat> {
    r.requests.Values
  }

  lemma {:induction false} CountValues(m: map<Guid, nat>)
    requires forall i, j :: i in m && j in m && m[i] == m[j] ==> i == j
    ensures |m.Values| == |m|
    decreases |m|
  {
    hide *;
    if m == map[] {
      assert m.Values == {};
    } else {
      var i :| i in m;
      var rest := m - {i};
      CountValues(rest);
      assert m[i] !in rest.Values;
      assert m.Keys == rest.Keys + {i};
      assert m.Values == rest.Values + {m[i]} by {
        forall v | v in m.Values ensures v in rest.Values + {m[i]} {
          var j :| j in m && m[j] == v;
          if j != i {
            assert rest[j] == v;
          }
        }
        forall v | v in rest.Values ensures v in m.Values {
          var j :| j in rest && rest[j] == v;
          assert m[j] == v;
        }
      }
    }
  }

  /** The three sets split the promises handed out. */
  ghost predicate Splits(r: Requester) {
    && Fulfilled(r) !! Failed(r) !! Pending(r)
    && (forall k: nat :: k in Fulfilled(r) || k in Failed(r) || k in Pending(r) <==> k < |r.promises|)
  }

  lemma PromisesSplit(r: Requester)
    requires Valid(r)
    ensures Splits(r)
  {
  }

  /** Conservation over every run of calls and replies, impostors and duplicates included: the
      promises handed out are at all times split into fulfilled, failed and pending ones, as many
      ids as promises are pending, and what a promise was set to at any point of the run it still
      holds at the end. */
  lemma PromisesAreConserved(w: Writer, earlier: seq<Input>, later: seq<Input>)
    ensures Valid(NewRequester(w))
    ensures var r := FeedAll(NewRequester(w), earlier);
            var s := FeedAll(NewRequester(w), earlier + later);
            && Later(r, s) && Fulfilled(r) <= Fulfilled(s) && Failed(r) <= Failed(s)
            && Splits(s) && |Pending(s)| == |s.requests|
  {
    var r := FeedAll(NewRequester(w), earlier);
    FeedAllInTurn(NewRequester(w), earlier, later);
    FeedAllIsLater(r, later);
    PromisesSplit(FeedAll(r, later));
    CountValues(FeedAll(r, later).requests);
  }

  lemma {:induction false} FeedAllInTurn(r: Requester, a: seq<Input>, b: seq<Input>)
    requires Valid(r)
    ensures FeedAll(r, a + b) == FeedAll(FeedAll(r, a), b)
    decreases |a|
  {
    if a == [] {
      assert a + b == b;
    } else {
      assert (a + b)[1..] == a[1..] + b;
      FeedAllInTurn(Feed(r, a[0]), a[1..], b);
    }
  }

  // ---- the objects ----

  class RequesterImpl {
    var sessionId: Guid
    var requests: map<Guid, nat>
    var promises: seq<Promise>
    var published: seq<Request>

    function Value(): Requester
      reads this
    {
      Requester(sessionId, requests, promises)
    }

    /** m_sessionId starts as the guid of the request writer, whose sequence is zero. */
    constructor (w: Writer)
      ensures Value() == NewRequester(w) && published == []
    {
      sessionId, requests, promises, published := Guid(w, 0), map[], [], [];
    }

    /** request: the future of a new promise; None stands for the exception raised when the
        future of a pending id is taken a second time, in which case nothing is sent. */
    method DoRequest(request: Sample) returns (future: Option<nat>)
      requires Valid(Value())
      modifies this
      ensures Value() == Issue(old(Value()))
      ensures future.None? <==> Increment(old(sessionId)) in old(requests)
      ensures future.Some? ==> future.value == |old(promises)| && promises == old(promises) + [Unset]
      ensures published == if future.Some? then old(published) + [(sessionId, request)] else old(published)
    {
      sessionId := Increment(sessionId);
      if sessionId in requests {
        return None;
      }
      future := Some(|promises|);
      requests := requests[sessionId := |promises|];
      promises := promises + [Unset];
      published := published + [(sessionId, request)];
    }

    method HandleReply(data: Sample, relatedId: Guid)
      requires Valid(Value())
      modifies this`requests, this`promises
      ensures Value() == OnReply(old(Value()), Reply(relatedId, data))
    {
      var badId := MakeBadVersion(relatedId);
      if relatedId in requests {
        promises := promises[requests[relatedId] := Set(Result(data))];
        requests := requests - {relatedId};
        return;
      }
      if badId in requests {
        promises := promises[requests[badId] := Set(Threw)];
        requests := requests - {badId};
        return;
      }
    }
  }

  /** A sample taken from a reader; ones without data only report a change of state. */
  datatype Taken = Taken(valid: bool, request: Request)

  function ValidRequests(samples: seq<Taken>): seq<Request> {
    if samples == [] then []
    else (if samples[0].valid then [samples[0].request] else []) + ValidRequests(samples[1..])
  }

  lemma {:induction false} ValidRequestsAppend(samples: seq<Taken>, t: Taken)
    ensures ValidRequests(samples + [t]) == ValidRequests(samples) + (if t.valid then [t.request] else [])
  {
    if samples != [] {
      assert (samples + [t])[1..] == samples[1..] + [t];
      ValidRequestsAppend(samples[1..], t);
    }
  }

  /** The places of the samples with data. */
  function ValidPlaces(samples: seq<Taken>): set<nat> {
    set i | 0 <= i < |samples| && samples[i].valid
  }

  lemma PlacesAppend(init: seq<Taken>, t: Taken)
    ensures |ValidPlaces(init + [t])| == |ValidPlaces(init)| + if t.valid then 1 else 0
  {
    assert ValidPlaces(init + [t]) == ValidPlaces(init) + (if t.valid then {|init|} else {});
  }

  /** The request of sample i is at the place given by the samples with data before it. */
  predicate RequestAt(samples: seq<Taken>, i: nat)
    requires i < |samples|
  {
    var k := |ValidPlaces(samples[..i])|;
    k < |ValidRequests(samples)| && ValidRequests(samples)[k] == samples[i].request
  }

  lemma RequestStays(init: seq<Taken>, t: Taken, i: nat)
    requires i < |init| && RequestAt(init, i)
    ensures RequestAt(init + [t], i)
  {
    hide ValidRequests, ValidPlaces;
    ValidRequestsAppend(init, t);
    assert (init + [t])[..i] == init[..i];
  }

  /** Every sample with data yields its request, in order, and nothing else does: as many requests as
      such samples, and each at its place. */
  lemma {:induction false} ValidRequestsExactly(samples: seq<Taken>)
    ensures |ValidRequests(samples)| == |ValidPlaces(samples)|
    ensures forall i :: 0 <= i < |samples| && samples[i].valid ==> RequestAt(samples, i)
  {
    hide ValidRequests, ValidPlaces;
    if samples == [] {
      NoRequests();
    } else {
      var init, t := samples[..|samples| - 1], samples[|samples| - 1];
      assert samples == init + [t];
      ValidRequestsExactly(init);
      ValidRequestsAppend(init, t);
      PlacesAppend(init, t);
      forall i | 0 <= i < |samples| && samples[i].valid ensures RequestAt(samples, i) {
        if i < |init| {
          assert init[i] == samples[i];
          RequestStays(init, t, i);
        }
      }
    }
  }

  lemma NoRequests()
    ensures ValidRequests([]) == [] && ValidPlaces([]) == {}
  {
  }

  /** The service that answers with a callback, one job per request. */
  class ServiceProvider {
    var id: Guid
    var jobs: seq<Request>
    var sent: seq<Reply>

    constructor (w: Writer)
      ensures id == Guid(w, 0) && jobs == [] && sent == []
    {
      id, jobs, sent := Guid(w, 0), [], [];
    }

    method OnDataAvailable(samples: seq<Taken>)
      modifies this`jobs
      ensures jobs == old(jobs) + ValidRequests(samples)
    {
      var i := 0;
      while i < |samples|
        invariant 0 <= i <= |samples|
        invariant jobs == old(jobs) + ValidRequests(samples[..i])
      {
        if samples[i].valid {
          jobs := jobs + [samples[i].request];
        }
        ValidRequestsAppend(samples[..i], samples[i]);
        assert samples[..i + 1] == samples[..i] + [samples[i]];
        i := i + 1;
      }
      assert samples[..i] == samples;
    }

    /** The oldest job: outcome is what the callback makes of its request. */
    method RunJob(outcome: Outcome)
      requires jobs != []
      modifies this
      ensures jobs == old(jobs)[1..] && id == Increment(old(id))
      ensures sent == old(sent) + [Announce(old(jobs)[0].0, outcome)]
    {
      var related := jobs[0].0;
      var reply, isBad := [], false;
      match outcome {
        case Result(body) => reply := body;
        case Threw => isBad := true;
      }
      id := Increment(id);
      sent := sent + [Reply(if isBad then MakeBadVersion(related) else related, reply)];
      jobs := jobs[1..];
    }
  }

  /** The service that queues requests for its owner to answer. */
  class Replier {
    const queue: ThreadSafeQueue<Request>
    var sent: seq<Reply>

    constructor ()
      ensures fresh(queue) && queue.capacity == 0 && queue.queue == [] && sent == []
    {
      queue := new ThreadSafeQueue(0);
      sent := [];
    }

    method OnRequest(id: Guid, data: Sample)
      requires queue.capacity == 0
      modifies queue
      ensures queue.queue == old(queue.queue) + [(id, data)]
    {
      queue.PushBack((id, data));
    }

    /** A session for the oldest request, or one that is not alive if none came in time. */
    method GetPendingSession() returns (s: ReplierSession)
      modifies queue
      ensures fresh(s) && (s.backend == if old(queue.queue) == [] then null else this)
      ensures s.backend != null ==> [(s.related, s.request)] + queue.queue == old(queue.queue)
      ensures s.backend == null ==> queue.queue == [] && s.related == UNKNOWN
    {
      var data := queue.Pop();
      match data {
        case Some(r) =>
          s := new ReplierSession(this, r.1, r.0);
        case None =>
          s := new ReplierSession(null, [], UNKNOWN);
      }
    }
  }

  /** One request in the hands of the service's owner, alive until it is answered. */
  class ReplierSession {
    var backend: Replier?
    const request: Sample
    const related: Guid

    constructor (backend: Replier?, request: Sample, related: Guid)
      ensures this.backend == backend && this.request == request && this.related == related
    {
      this.backend, this.request, this.related := backend, request, related;
    }

    method SendReply(body: Sample)
      requires backend != null
      modifies this, backend
      ensures backend == null && old(backend).sent == old(backend.sent) + [Announce(related, Result(body))]
    {
      backend.sent := backend.sent + [Reply(related, body)];
      backend := null;
    }

    method Fail()
      requires backend != null
      modifies this, backend
      ensures backend == null && old(backend).sent == old(backend.sent) + [Announce(related, Threw)]
    {
      backend.sent := backend.sent + [Reply(MakeBadVersion(related), [])];
      backend := null;
    }
  }
}
