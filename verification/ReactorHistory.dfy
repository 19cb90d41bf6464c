/** What the participants of a run were told, and that it arrives: requests, calls, replies, progress
    samples and cancels. The histories are read off the steps of the run. */
module ReactorHistory {
  import opened Common
  import opened Guids
  import opened ReactorServer
  import opened ReactorClient
  import opened ReactorSystem
  import opened ReactorInvariant
  import opened ReactorTheorems

  // ---- requests ----

  /** The requests that client w was given, in order. */
  function Asked(steps: seq<Step>, w: Writer): seq<Sample> {
    if steps == [] then [] else
    var last := steps[|steps| - 1];
    Asked(steps[..|steps| - 1], w) + (if last.StartSession? && last.w == w then [last.request] else [])
  }

  lemma AskedAppend(steps: seq<Step>, step: Step, w: Writer)
    ensures Asked(steps + [step], w)
            == Asked(steps, w) + (if step.StartSession? && step.w == w then [step.request] else [])
  {
    assert (steps + [step])[..|steps|] == steps;
  }

  /** The ids of the first n requests of client w. */
  predicate Numbered(id: Guid, w: Writer, n: nat) {
    id.writer == w && 1 <= id.sequence <= n
  }

  /** r is the request its client was given under that number. */
  predicate IsRequest(asked: seq<Sample>, w: Writer, r: Request) {
    Numbered(r.0, w, |asked|) && r.1 == asked[r.0.sequence - 1]
  }

  /** The request is on its way to the topic or has been published there. */
  predicate IsSent(p: Peer, id: Guid) {
    id in p.starting || exists i :: 0 <= i < |p.client.requestLog| && p.client.requestLog[i].0 == id
  }

  /** A client numbers its requests, and what it holds or has published under a number is the
      request it was given then; none is lost. */
  ghost predicate Told(p: Peer, w: Writer, asked: seq<Sample>) {
    && p.client.lastId.writer == w && p.client.lastId.sequence == |asked|
    && (forall id :: id in p.starting ==> IsRequest(asked, w, (id, p.starting[id])))
    && (forall i :: 0 <= i < |p.client.requestLog| ==> IsRequest(asked, w, p.client.requestLog[i]))
    && (forall id :: Numbered(id, w, |asked|) ==> IsSent(p, id))
  }

  ghost predicate AllTold(s: System, steps: seq<Step>) {
    forall w :: w in s.peers ==> Told(s.peers[w], w, Asked(steps, w))
  }

  lemma StartIsTold(p: Peer, w: Writer, asked: seq<Sample>, request: Sample)
    requires Told(p, w, asked) && p.client.lastId.sequence < WORD - 1
    ensures var c := Register(p.client);
            Told(p.(client := c, starting := p.starting[c.lastId := request]), w, asked + [request])
  {
    hide IsSent;
    var c := Register(p.client);
    var q, all := p.(client := c, starting := p.starting[c.lastId := request]), asked + [request];
    assert c.lastId.writer == w && c.lastId.sequence == |all| && all[|asked|] == request;
    forall id | Numbered(id, w, |all|) ensures IsSent(q, id) {
      StartKeepsSent(p, c, request, id);
    }
  }

  lemma StartKeepsSent(p: Peer, c: Client, request: Sample, id: Guid)
    requires c.requestLog == p.client.requestLog && (id == c.lastId || IsSent(p, id))
    ensures IsSent(p.(client := c, starting := p.starting[c.lastId := request]), id)
  {
  }

  lemma SendIsTold(p: Peer, w: Writer, asked: seq<Sample>, id: Guid)
    requires Told(p, w, asked) && id in p.starting
    ensures Told(p.(client := PublishRequest(p.client, id, p.starting[id]), starting := p.starting - {id}), w, asked)
  {
    hide IsSent;
    var q := p.(client := PublishRequest(p.client, id, p.starting[id]), starting := p.starting - {id});
    forall j | Numbered(j, w, |asked|) ensures IsSent(q, j) {
      SendKeepsSent(p, id, j);
    }
  }

  lemma SendKeepsSent(p: Peer, id: Guid, j: Guid)
    requires id in p.starting && IsSent(p, j)
    ensures IsSent(p.(client := PublishRequest(p.client, id, p.starting[id]), starting := p.starting - {id}), j)
  {
    var log := PublishRequest(p.client, id, p.starting[id]).requestLog;
    assert log[|p.client.requestLog|].0 == id;
    if j !in p.starting {
      var i :| 0 <= i < |p.client.requestLog| && p.client.requestLog[i].0 == j;
      assert log[i].0 == j;
    }
  }

  /** What a client keeps of its requests. */
  predicate SameRequests(p: Peer, q: Peer) {
    q.client.lastId == p.client.lastId && q.starting == p.starting && q.client.requestLog == p.client.requestLog
  }

  lemma TakingKeepsTold(s: System, step: Step, w: Writer)
    requires Enabled(s, step) && w in s.peers && (step.GroomList? || step.GetReply? || step.ReadProgressData?)
    ensures w in Apply(s, step).peers && SameRequests(s.peers[w], Apply(s, step).peers[w])
  {
    hide OnProgress, OnReply, DisposeEntry, Erase, PublishCancel, Register, PublishRequest;
  }

  lemma CancellingKeepsTold(s: System, step: Step, w: Writer)
    requires Enabled(s, step) && w in s.peers && (step.CancelSession? || step.SendCancel? || step.DisposeClientSession?)
    ensures w in Apply(s, step).peers && SameRequests(s.peers[w], Apply(s, step).peers[w])
  {
    hide OnProgress, OnReply, Groom, TakeReply, TakeProgressData, Register, PublishRequest;
  }

  lemma ReceiptKeepsTold(s: System, step: Step, w: Writer)
    requires Enabled(s, step) && w in s.peers && (step.ReceiveProgress? || step.ReceiveReply?)
    ensures w in Apply(s, step).peers && SameRequests(s.peers[w], Apply(s, step).peers[w])
  {
  }

  lemma ServerKeepsTold(s: System, step: Step, w: Writer)
    requires Enabled(s, step) && w in s.peers
    requires step.DeliverRequest? || step.DeliverCommand? || step.TakeSession? || step.CallSession? || step.Perform?
    ensures w in Apply(s, step).peers && SameRequests(s.peers[w], Apply(s, step).peers[w])
  {
    hide Act, ActionEvent, ApplyEvent, CallActions, AliveIn;
  }

  /** Other steps leave the requests of every client alone. */
  lemma OthersKeepRequests(s: System, step: Step, w: Writer)
    requires Enabled(s, step) && w in s.peers && !step.StartSession? && !step.SendRequest?
    ensures w in Apply(s, step).peers && SameRequests(s.peers[w], Apply(s, step).peers[w])
  {
    hide Enabled, Apply, SameRequests;
    if step.GroomList? || step.GetReply? || step.ReadProgressData? {
      TakingKeepsTold(s, step, w);
    } else if IsLocal(step) {
      CancellingKeepsTold(s, step, w);
    } else if step.ReceiveProgress? || step.ReceiveReply? {
      ReceiptKeepsTold(s, step, w);
    } else {
      ServerKeepsTold(s, step, w);
    }
  }

  lemma StepIsTold(s: System, steps: seq<Step>, step: Step)
    requires AllTold(s, steps) && Enabled(s, step)
    ensures AllTold(Apply(s, step), steps + [step])
  {
    hide Asked, Told;
    var t := Apply(s, step);
    forall w | w in t.peers ensures Told(t.peers[w], w, Asked(steps + [step], w)) {
      AskedAppend(steps, step, w);
      PeerIsTold(s, step, w, Asked(steps, w));
      assert Asked(steps, w) + [] == Asked(steps, w);
    }
  }

  lemma PeerIsTold(s: System, step: Step, w: Writer, asked: seq<Sample>)
    requires Enabled(s, step) && w in Apply(s, step).peers && (w in s.peers ==> Told(s.peers[w], w, asked))
    ensures Told(Apply(s, step).peers[w], w, asked + (if step.StartSession? && step.w == w then [step.request] else []))
  {
    hide Told, Register, PublishRequest;
    assert asked + [] == asked;
    SamePeers(s, step);
    if step.StartSession? {
      if step.w == w {
        TellsSequence(s.peers[w], w, asked);
        StartIsTold(s.peers[w], w, asked, step.request);
      }
    } else if step.SendRequest? {
      if step.w == w {
        SendIsTold(s.peers[w], w, asked, step.id);
      }
    } else {
      OthersKeepRequests(s, step, w);
      SameIsTold(s.peers[w], Apply(s, step).peers[w], w, asked);
    }
  }

  lemma SamePeers(s: System, step: Step)
    requires Enabled(s, step)
    ensures Apply(s, step).peers.Keys == s.peers.Keys
  {
  }

  lemma TellsSequence(p: Peer, w: Writer, asked: seq<Sample>)
    requires Told(p, w, asked)
    ensures p.client.lastId.writer == w && p.client.lastId.sequence == |asked|
  {
  }

  lemma SameIsTold(p: Peer, q: Peer, w: Writer, asked: seq<Sample>)
    requires Told(p, w, asked) && SameRequests(p, q)
    ensures Told(q, w, asked)
  {
    hide IsSent;
    forall id | Numbered(id, w, |asked|) ensures IsSent(q, id) {
      SameIsSent(p, q, id);
    }
  }

  lemma SameIsSent(p: Peer, q: Peer, id: Guid)
    requires IsSent(p, id) && q.starting == p.starting && q.client.requestLog == p.client.requestLog
    ensures IsSent(q, id)
  {
  }

  lemma {:induction false} RunIsTold(states: seq<System>, steps: seq<Step>, n: nat)
    requires IsRun(states, steps) && AllTold(states[0], []) && n <= |steps|
    ensures AllTold(states[n], steps[..n])
  {
    hide AllTold, Enabled, Apply;
    if n == 0 {
      assert steps[..n] == [];
    } else {
      RunIsTold(states, steps, n - 1);
      StepOf(states, steps, n - 1);
      StepIsTold(states[n - 1], steps[..n - 1], steps[n - 1]);
      assert steps[..n - 1] + [steps[n - 1]] == steps[..n];
    }
  }

  /** The run starts at the beginning. */
  ghost predicate FromStart(states: seq<System>, steps: seq<Step>) {
    IsRun(states, steps) && exists writers :: states[0] == Initial(writers)
  }

  lemma StartOfRun(states: seq<System>, steps: seq<Step>)
    requires FromStart(states, steps)
    ensures AllTold(states[0], []) && Inv(states[0])
  {
    var writers :| states[0] == Initial(writers);
    InitialInv(writers);
  }

  /** Requests arrive as they were made: in every run, whatever a client has published, and whatever
      has arrived at the server, waits there or was handed out, carries the request its client was
      given under that number; and no request is lost. */
  lemma RequestsArriveAsMade(states: seq<System>, steps: seq<Step>, w: Writer)
    requires FromStart(states, steps) && w in states[|steps|].peers
    ensures var s, asked := states[|steps|], Asked(steps, w);
            && (forall i :: 0 <= i < |s.peers[w].client.requestLog| ==>
                  IsRequest(asked, w, s.peers[w].client.requestLog[i]))
            && (forall r :: r in s.arrived && r.0.writer == w ==> IsRequest(asked, w, r))
            && (forall r :: r in s.taken && r.0.writer == w ==> IsRequest(asked, w, r))
            && (forall r :: r in s.server.pending && r.0.writer == w ==> IsRequest(asked, w, r))
            && (forall id :: Numbered(id, w, |asked|) ==> IsSent(s.peers[w], id))
  {
    hide Asked, IsSent, Inv, IsRequest;
    var s := states[|steps|];
    StartOfRun(states, steps);
    RunIsTold(states, steps, |steps|);
    assert steps[..|steps|] == steps;
    RunKeeps(states, steps, |steps|);
    ArrivedIsPublished(s, w);
    assert forall r :: r in s.taken ==> r in s.arrived;
    assert forall r :: r in s.server.pending ==> r in s.arrived;
  }

  lemma ArrivedIsPublished(s: System, w: Writer)
    requires Inv(s) && w in s.peers
    ensures s.arrived == s.taken + s.server.pending
    ensures forall r :: r in s.arrived && r.0.writer == w ==>
              exists i :: 0 <= i < |s.peers[w].client.requestLog| && s.peers[w].client.requestLog[i] == r
  {
    hide PeerOk, ClientOk, HandleOk;
    forall r | r in s.arrived && r.0.writer == w
      ensures exists i :: 0 <= i < |s.peers[w].client.requestLog| && s.peers[w].client.requestLog[i] == r
    {
      var k :| 0 <= k < |s.arrived| && s.arrived[k] == r;
      assert Delivered(s, r);
    }
  }

  // ---- what reaches a client ----

  /** The reply for id that a step delivers to its client. */
  function ReplyDelivered(s: System, step: Step, id: Guid): Option<Sample>
    requires Enabled(s, step)
  {
    if step == ReceiveReply(id.writer) && s.server.replyLog[s.peers[id.writer].repliesRead].id == id
    then Some(s.server.replyLog[s.peers[id.writer].repliesRead].body)
    else None
  }

  /** The progress sample for id that a step delivers to its client, if it deserializes. */
  function SampleDelivered(s: System, step: Step, id: Guid): multiset<ProgressEntry>
    requires Enabled(s, step)
  {
    if step != ReceiveProgress(id.writer, true) then multiset{} else
    var m := s.server.progressLog[s.peers[id.writer].progressRead];
    if m.id == id && m.data != [] then multiset{(m.mark, m.data)} else multiset{}
  }

  /** The progress sample for id that a step hands to its reader. */
  function SampleRead(step: Step, id: Guid): multiset<ProgressEntry> {
    if step.ReadProgressData? && step.w == id.writer && step.id == id then multiset{step.entry} else multiset{}
  }

  /** Whether the client that issued id knows the session. */
  predicate Known(s: System, id: Guid) {
    id.writer in s.peers && id in s.peers[id.writer].client.session
  }

  function DataOf(s: System, id: Guid): SessionData
    requires Known(s, id)
  {
    s.peers[id.writer].client.session[id]
  }

  /** What a step does to the reply and the samples of a session. */
  predicate Stored(s: System, step: Step, id: Guid, d: SessionData, e: SessionData)
    requires Enabled(s, step)
  {
    && SampleRead(step, id) <= d.progressData
    && e.progressData == d.progressData + SampleDelivered(s, step, id) - SampleRead(step, id)
    && (ReplyDelivered(s, step, id).Some? ==> e.reply == ReplyDelivered(s, step, id))
    && (ReplyDelivered(s, step, id).None? ==>
          e.reply == if step == GetReply(id.writer, id) && d.replyReady then None else d.reply)
    && (e.replyReady <==> d.replyReady || ReplyDelivered(s, step, id).Some?)
  }

  /** The step neither delivers anything to the client of id nor takes anything of the session. */
  predicate Concerns(step: Step, id: Guid) {
    || step == ReceiveReply(id.writer) || (step.ReceiveProgress? && step.w == id.writer)
    || step == GetReply(id.writer, id) || (step.ReadProgressData? && step.w == id.writer && step.id == id)
  }

  lemma NotConcerned(s: System, step: Step, id: Guid, d: SessionData)
    requires Enabled(s, step) && !Concerns(step, id)
    ensures Stored(s, step, id, d, d)
  {
    hide Enabled;
    assert d.progressData + multiset{} - multiset{} == d.progressData;
  }

  lemma ServerLeavesClients(s: System, step: Step, w: Writer)
    requires Enabled(s, step) && w in Apply(s, step).peers
    requires step.DeliverRequest? || step.DeliverCommand? || step.TakeSession? || step.CallSession? || step.Perform?
    ensures w in s.peers && Apply(s, step).peers[w].client == s.peers[w].client
  {
    hide Act, ActionEvent, ApplyEvent, CallActions, AliveIn;
  }

  lemma OthersLeaveClient(s: System, step: Step, w: Writer)
    requires Enabled(s, step) && (IsLocal(step) || step.ReceiveProgress? || step.ReceiveReply?) && step.w != w
    requires w in Apply(s, step).peers
    ensures w in s.peers && Apply(s, step).peers[w].client == s.peers[w].client
  {
    hide Groom, OnProgress, OnReply, TakeReply, TakeProgressData, DisposeEntry, Erase, PublishCancel;
  }

  lemma RemovalKeepsData(s: System, step: Step, id: Guid)
    requires step.GroomList? || step.CancelSession? || step.SendCancel? || step.DisposeClientSession?
    requires Enabled(s, step) && step.w == id.writer && Known(Apply(s, step), id)
    ensures Known(s, id) && DataOf(Apply(s, step), id) == DataOf(s, id)
  {
  }

  lemma GetStores(s: System, j: Guid, id: Guid)
    requires Enabled(s, GetReply(id.writer, j)) && Known(Apply(s, GetReply(id.writer, j)), id)
    ensures Known(s, id)
    ensures Stored(s, GetReply(id.writer, j), id, DataOf(s, id), DataOf(Apply(s, GetReply(id.writer, j)), id))
  {
    var d := DataOf(s, id);
    assert d.progressData + multiset{} - multiset{} == d.progressData;
  }

  lemma ReadStores(s: System, step: Step, id: Guid)
    requires Enabled(s, step) && step.ReadProgressData? && step.w == id.writer && Known(Apply(s, step), id)
    ensures Known(s, id) && Stored(s, step, id, DataOf(s, id), DataOf(Apply(s, step), id))
  {
    hide IsLowest, Stored;
    var d, e := DataOf(s, id), DataOf(Apply(s, step), id);
    if step.id == id {
      LowestIsThere(s, step);
      ReadIsStored(s, step, id, d, e);
    } else {
      assert e == d;
      NotConcerned(s, step, id, d);
    }
  }

  lemma LowestIsThere(s: System, step: Step)
    requires Enabled(s, step) && step.ReadProgressData?
    ensures step.w in s.peers && step.id in s.peers[step.w].client.session
    ensures step.entry in s.peers[step.w].client.session[step.id].progressData
  {
  }

  lemma ReadIsStored(s: System, step: Step, id: Guid, d: SessionData, e: SessionData)
    requires Enabled(s, step) && step.ReadProgressData? && step == ReadProgressData(id.writer, id, step.entry)
    requires step.entry in d.progressData && e == d.(progressData := d.progressData - multiset{step.entry})
    ensures Stored(s, step, id, d, e)
  {
    hide Enabled;
    assert d.progressData + multiset{} == d.progressData;
  }

  lemma LocalStores(s: System, step: Step, id: Guid)
    requires Enabled(s, step) && IsLocal(step) && Known(Apply(s, step), id)
    ensures Known(s, id) && Stored(s, step, id, DataOf(s, id), DataOf(Apply(s, step), id))
  {
    hide Enabled, Apply, Stored;
    if step.w != id.writer {
      OthersLeaveClient(s, step, id.writer);
      NotConcerned(s, step, id, DataOf(s, id));
    } else if step.GetReply? {
      GetStores(s, step.id, id);
    } else if step.ReadProgressData? {
      ReadStores(s, step, id);
    } else {
      RemovalKeepsData(s, step, id);
      NotConcerned(s, step, id, DataOf(s, id));
    }
  }

  lemma ReplyStores(s: System, id: Guid)
    requires Enabled(s, ReceiveReply(id.writer)) && Known(Apply(s, ReceiveReply(id.writer)), id)
    ensures Known(s, id)
    ensures Stored(s, ReceiveReply(id.writer), id, DataOf(s, id), DataOf(Apply(s, ReceiveReply(id.writer)), id))
  {
    var d := DataOf(s, id);
    assert d.progressData + multiset{} - multiset{} == d.progressData;
  }

  lemma ProgressStores(s: System, decodes: bool, id: Guid)
    requires Enabled(s, ReceiveProgress(id.writer, decodes)) && Known(Apply(s, ReceiveProgress(id.writer, decodes)), id)
    ensures Known(s, id)
    ensures Stored(s, ReceiveProgress(id.writer, decodes), id, DataOf(s, id),
                   DataOf(Apply(s, ReceiveProgress(id.writer, decodes)), id))
  {
    hide OnProgress, Stored;
    var p, step := s.peers[id.writer], ReceiveProgress(id.writer, decodes);
    ProgressEntryAfter(p.client, s.server.progressLog[p.progressRead], decodes, id);
    ProgressIsStored(s, step, id, DataOf(s, id), DataOf(Apply(s, step), id));
  }

  lemma ProgressIsStored(s: System, step: Step, id: Guid, d: SessionData, e: SessionData)
    requires Enabled(s, step) && step.ReceiveProgress?
    requires e == d.(progress := e.progress, progressData := d.progressData + SampleDelivered(s, step, id))
    ensures Stored(s, step, id, d, e)
  {
    hide SampleDelivered;
    assert e.progressData - multiset{} == e.progressData;
  }

  lemma ProgressEntryAfter(c: Client, m: ProgressMsg, decodes: bool, id: Guid)
    requires id in OnProgress(c, m, decodes).session
    ensures id in c.session
    ensures var d, e := c.session[id], OnProgress(c, m, decodes).session[id];
            var sample := if m.id == id && decodes && m.data != [] then multiset{(m.mark, m.data)} else multiset{};
            e == d.(progress := e.progress, progressData := d.progressData + sample)
  {
    assert c.session[id].progressData + multiset{} == c.session[id].progressData;
  }

  lemma ReceiptStores(s: System, step: Step, id: Guid)
    requires Enabled(s, step) && (step.ReceiveProgress? || step.ReceiveReply?) && Known(Apply(s, step), id)
    ensures Known(s, id) && Stored(s, step, id, DataOf(s, id), DataOf(Apply(s, step), id))
  {
    hide Enabled, Apply, Stored;
    if step.w != id.writer {
      OthersLeaveClient(s, step, id.writer);
      NotConcerned(s, step, id, DataOf(s, id));
    } else if step.ReceiveReply? {
      ReplyStores(s, id);
    } else {
      ProgressStores(s, step.decodes, id);
    }
  }

  lemma ServerStores(s: System, step: Step, id: Guid)
    requires Enabled(s, step) && Known(Apply(s, step), id)
    requires step.DeliverRequest? || step.DeliverCommand? || step.TakeSession? || step.CallSession? || step.Perform?
    ensures Known(s, id) && Stored(s, step, id, DataOf(s, id), DataOf(Apply(s, step), id))
  {
    hide Enabled, Apply, Stored;
    ServerLeavesClients(s, step, id.writer);
    NotConcerned(s, step, id, DataOf(s, id));
  }

  lemma RequestStores(s: System, step: Step, id: Guid)
    requires Enabled(s, step) && (step.StartSession? || step.SendRequest?) && Known(Apply(s, step), id)
    ensures Known(s, id) ==> Stored(s, step, id, DataOf(s, id), DataOf(Apply(s, step), id))
    ensures !Known(s, id) ==> DataOf(Apply(s, step), id) == FRESH && step.StartSession? && step.w == id.writer
    ensures !Known(s, id) ==> id == Increment(s.peers[id.writer].client.lastId)
  {
    hide Stored;
    if Known(s, id) {
      NotConcerned(s, step, id, DataOf(s, id));
    }
  }

  lemma StepStores(s: System, step: Step, id: Guid)
    requires Enabled(s, step) && Known(Apply(s, step), id)
    ensures Known(s, id) ==> Stored(s, step, id, DataOf(s, id), DataOf(Apply(s, step), id))
    ensures !Known(s, id) ==> DataOf(Apply(s, step), id) == FRESH && step.StartSession? && step.w == id.writer
    ensures !Known(s, id) ==> id == Increment(s.peers[id.writer].client.lastId)
  {
    hide Enabled, Apply, Stored, Known, Increment;
    if IsLocal(step) {
      LocalStores(s, step, id);
    } else if step.ReceiveProgress? || step.ReceiveReply? {
      ReceiptStores(s, step, id);
    } else if step.StartSession? || step.SendRequest? {
      RequestStores(s, step, id);
    } else {
      ServerStores(s, step, id);
    }
  }

  // ---- replies and samples over whole runs ----

  lemma EnabledAt(states: seq<System>, steps: seq<Step>, i: nat)
    requires IsRun(states, steps) && i < |steps|
    ensures Enabled(states[i], steps[i])
  {
    hide Enabled, Apply;
  }

  /** Step i of the run delivers a reply for id to its client. */
  ghost predicate DeliversReply(states: seq<System>, steps: seq<Step>, i: nat, id: Guid)
    requires IsRun(states, steps) && i < |steps|
  {
    EnabledAt(states, steps, i);
    ReplyDelivered(states[i], steps[i], id).Some?
  }

  /** Some reply for id has been delivered, and get has not been called for id since. */
  ghost predicate ReplyWaits(states: seq<System>, steps: seq<Step>, n: nat, id: Guid)
    requires IsRun(states, steps) && n <= |steps|
  {
    exists i :: 0 <= i < n && DeliversReply(states, steps, i, id)
                && forall k :: i < k < n ==> steps[k] != GetReply(id.writer, id)
  }

  /** All samples for id that have been delivered and deserialized. */
  ghost function Received(states: seq<System>, steps: seq<Step>, n: nat, id: Guid): multiset<ProgressEntry>
    requires IsRun(states, steps) && n <= |steps|
  {
    if n == 0 then multiset{} else
    EnabledAt(states, steps, n - 1);
    Received(states, steps, n - 1, id) + SampleDelivered(states[n - 1], steps[n - 1], id)
  }

  /** All samples for id that have been handed to a reader. */
  ghost function ReadOut(steps: seq<Step>, n: nat, id: Guid): multiset<ProgressEntry>
    requires n <= |steps|
  {
    if n == 0 then multiset{} else ReadOut(steps, n - 1, id) + SampleRead(steps[n - 1], id)
  }

  lemma WaitsStep(states: seq<System>, steps: seq<Step>, n: nat, id: Guid)
    requires IsRun(states, steps) && n < |steps|
    ensures ReplyWaits(states, steps, n + 1, id) <==>
              || DeliversReply(states, steps, n, id)
              || (ReplyWaits(states, steps, n, id) && steps[n] != GetReply(id.writer, id))
  {
    hide DeliversReply, IsRun;
    if DeliversReply(states, steps, n, id) {
      assert ReplyWaits(states, steps, n + 1, id);
    } else if ReplyWaits(states, steps, n, id) && steps[n] != GetReply(id.writer, id) {
      var i :| 0 <= i < n && DeliversReply(states, steps, i, id)
               && forall k :: i < k < n ==> steps[k] != GetReply(id.writer, id);
      assert forall k :: i < k < n + 1 ==> steps[k] != GetReply(id.writer, id);
    }
  }

  /** The client of id has not handed out that id. */
  predicate Unissued(s: System, id: Guid) {
    id.writer in s.peers && !IssuedBy(s.peers[id.writer].client, id)
  }

  lemma UnissuedBefore(s: System, step: Step, id: Guid)
    requires Enabled(s, step) && Unissued(Apply(s, step), id)
    ensures Unissued(s, id)
  {
    SamePeers(s, step);
    if !step.StartSession? && !step.SendRequest? {
      OthersKeepRequests(s, step, id.writer);
    }
  }

  /** Nobody has heard of such an id. */
  lemma UnissuedIsUnheard(s: System, step: Step, id: Guid)
    requires Inv(s) && Enabled(s, step) && Unissued(s, id)
    ensures ReplyDelivered(s, step, id) == None
    ensures SampleDelivered(s, step, id) == multiset{} && SampleRead(step, id) == multiset{}
    ensures !Known(s, id)
  {
    hide HandleOk, ClientOk, Delivered, Apply;
    PeerInv(s, id.writer);
    if id in s.handles {
      OnlyIssuedIdsAreHandled(s, id);
    }
  }

  lemma NextIsUnissued(s: System, id: Guid)
    requires Inv(s) && id.writer in s.peers && s.peers[id.writer].client.lastId.sequence < WORD - 1
    requires id == Increment(s.peers[id.writer].client.lastId)
    ensures Unissued(s, id)
  {
    hide HandleOk, ClientOk, Delivered;
    PeerInv(s, id.writer);
  }

  /** What a client holds of a session is what the run has brought and not taken. */
  ghost predicate Holds(states: seq<System>, steps: seq<Step>, n: nat, id: Guid)
    requires IsRun(states, steps) && n <= |steps|
  {
    && (Known(states[n], id) ==>
          && DataOf(states[n], id).progressData + ReadOut(steps, n, id) == Received(states, steps, n, id)
          && (DataOf(states[n], id).reply.Some? <==> ReplyWaits(states, steps, n, id)))
    && (Unissued(states[n], id) ==>
          && ReadOut(steps, n, id) == Received(states, steps, n, id) == multiset{}
          && !ReplyWaits(states, steps, n, id))
  }

  lemma StaysUnheard(states: seq<System>, steps: seq<Step>, n: nat, id: Guid)
    requires IsRun(states, steps) && n < |steps| && Inv(states[n]) && Holds(states, steps, n, id)
    requires Unissued(states[n], id)
    ensures ReadOut(steps, n + 1, id) == Received(states, steps, n + 1, id) == multiset{}
    ensures !ReplyWaits(states, steps, n + 1, id)
  {
    hide Inv, Enabled, Apply, ReplyWaits, Unissued;
    StepOf(states, steps, n);
    UnissuedIsUnheard(states[n], steps[n], id);
    WaitsStep(states, steps, n, id);
  }

  /** A stored reply is ready to be fetched, and is the last one delivered. */
  lemma StoredReplyIsReady(s: System, id: Guid)
    requires Inv(s) && Known(s, id) && DataOf(s, id).reply.Some?
    ensures DataOf(s, id).replyReady
    ensures var bodies := Replies(s.server.replyLog[..s.peers[id.writer].repliesRead], id);
            bodies != [] && DataOf(s, id).reply == Some(bodies[|bodies| - 1])
  {
    hide Marks, Replies, HandleOk, PeerOk;
    PeerInv(s, id.writer);
    var p := s.peers[id.writer];
    assert EntryOk(DataOf(s, id), id, s.server.progressLog[..p.progressRead], s.server.replyLog[..p.repliesRead]);
  }

  lemma SamplesBalance(d: multiset<ProgressEntry>, gone: multiset<ProgressEntry>, all: multiset<ProgressEntry>,
                       more: multiset<ProgressEntry>, less: multiset<ProgressEntry>)
    requires d + gone == all && less <= d
    ensures (d + more - less) + (gone + less) == all + more
  {
  }

  lemma KnownStays(states: seq<System>, steps: seq<Step>, n: nat, id: Guid)
    requires IsRun(states, steps) && n < |steps| && Inv(states[n]) && Holds(states, steps, n, id)
    requires Known(states[n], id) && Known(states[n + 1], id)
    ensures DataOf(states[n + 1], id).progressData + ReadOut(steps, n + 1, id) == Received(states, steps, n + 1, id)
    ensures DataOf(states[n + 1], id).reply.Some? <==> ReplyWaits(states, steps, n + 1, id)
  {
    hide Inv, Enabled, Apply, ReplyWaits, Known, SampleDelivered, SampleRead, ReplyDelivered;
    StepOf(states, steps, n);
    var d, e := DataOf(states[n], id), DataOf(states[n + 1], id);
    StepStores(states[n], steps[n], id);
    WaitsStep(states, steps, n, id);
    if d.reply.Some? {
      StoredReplyIsReady(states[n], id);
    }
    SamplesBalance(d.progressData, ReadOut(steps, n, id), Received(states, steps, n, id),
                   SampleDelivered(states[n], steps[n], id), SampleRead(steps[n], id));
  }

  lemma NewlyKnown(states: seq<System>, steps: seq<Step>, n: nat, id: Guid)
    requires IsRun(states, steps) && n < |steps| && Inv(states[n]) && Holds(states, steps, n, id)
    requires !Known(states[n], id) && Known(states[n + 1], id)
    ensures DataOf(states[n + 1], id) == FRESH && Unissued(states[n], id)
  {
    hide Inv, Apply, ReplyWaits, Known, Holds, Increment;
    StepOf(states, steps, n);
    StepStores(states[n], steps[n], id);
    NextIsUnissued(states[n], id);
  }

  lemma HoldsNext(states: seq<System>, steps: seq<Step>, n: nat, id: Guid)
    requires IsRun(states, steps) && n < |steps| && Inv(states[n]) && Holds(states, steps, n, id)
    ensures Holds(states, steps, n + 1, id)
  {
    hide Inv, Enabled, Apply, ReplyWaits, Known, Unissued, Received, ReadOut;
    StepOf(states, steps, n);
    if Unissued(states[n + 1], id) {
      UnissuedBefore(states[n], steps[n], id);
      StaysUnheard(states, steps, n, id);
    }
    if Known(states[n + 1], id) {
      if Known(states[n], id) {
        KnownStays(states, steps, n, id);
      } else {
        NewlyKnown(states, steps, n, id);
        StaysUnheard(states, steps, n, id);
      }
    }
  }

  lemma {:induction false} HoldsThroughout(states: seq<System>, steps: seq<Step>, n: nat, id: Guid)
    requires FromStart(states, steps) && n <= |steps|
    ensures Holds(states, steps, n, id) && Inv(states[n])
  {
    hide Inv, IsRun, Holds;
    StartOfRun(states, steps);
    if n == 0 {
      HoldsAtStart(states, steps, id);
    } else {
      HoldsThroughout(states, steps, n - 1, id);
      HoldsNext(states, steps, n - 1, id);
    }
    RunKeeps(states, steps, n);
  }

  lemma HoldsAtStart(states: seq<System>, steps: seq<Step>, id: Guid)
    requires FromStart(states, steps)
    ensures Holds(states, steps, 0, id)
  {
  }

  /** The stored reply, exactly: at every moment of every run, a client that knows a session holds a
      reply if and only if one has been delivered since the last get, and then the one delivered
      last. */
  lemma StoredReplyExactlyWhen(states: seq<System>, steps: seq<Step>, id: Guid)
    requires FromStart(states, steps) && Known(states[|steps|], id)
    ensures var s, w := states[|steps|], id.writer;
            && s.peers[w].repliesRead <= |s.server.replyLog|
            && var bodies := Replies(s.server.replyLog[..s.peers[w].repliesRead], id);
               && (ReplyWaits(states, steps, |steps|, id) ==> bodies != [])
               && DataOf(s, id).reply ==
                  if ReplyWaits(states, steps, |steps|, id) then Some(bodies[|bodies| - 1]) else None
  {
    hide Inv, Replies, ReplyWaits, Received, ReadOut;
    HoldsThroughout(states, steps, |steps|, id);
    ReadWithinLog(states[|steps|], id.writer);
    if DataOf(states[|steps|], id).reply.Some? {
      StoredReplyIsReady(states[|steps|], id);
    }
  }

  lemma ReadWithinLog(s: System, w: Writer)
    requires Inv(s) && w in s.peers
    ensures s.peers[w].repliesRead <= |s.server.replyLog|
  {
    hide EntriesOk;
    PeerInv(s, w);
  }

  /** Conservation of progress samples: at every moment of every run, the samples a client still holds
      for a session it knows, and those it has handed out, are together exactly those delivered to
      it that deserialized. */
  lemma SamplesAreConserved(states: seq<System>, steps: seq<Step>, id: Guid)
    requires FromStart(states, steps) && Known(states[|steps|], id)
    ensures DataOf(states[|steps|], id).progressData + ReadOut(steps, |steps|, id)
            == Received(states, steps, |steps|, id)
  {
    hide Inv, ReplyWaits, Received, ReadOut;
    HoldsThroughout(states, steps, |steps|, id);
  }

  // ---- from the calls on a handle to the client ----

  /** The calls made on the handle of id, in order. */
  function CallsOf(steps: seq<Step>, id: Guid): seq<Call> {
    if steps == [] then [] else
    var last := steps[|steps| - 1];
    CallsOf(steps[..|steps| - 1], id) + (if last.CallSession? && last.id == id then [last.call] else [])
  }

  predicate CallsTold(s: System, steps: seq<Step>, id: Guid) {
    CallsOf(steps, id) == if id in s.handles then s.handles[id].calls else []
  }

  lemma CallsStep(s: System, steps: seq<Step>, step: Step, id: Guid)
    requires CallsTold(s, steps, id) && Enabled(s, step) && Inv(s)
    ensures CallsTold(Apply(s, step), steps + [step], id)
  {
    hide CallsOf, Inv, Act, CallActions;
    CallsAppend(steps, step, id);
    HandleCallsAfter(s, step, id);
  }

  lemma CallsAppend(steps: seq<Step>, step: Step, id: Guid)
    ensures CallsOf(steps + [step], id)
            == CallsOf(steps, id) + (if step.CallSession? && step.id == id then [step.call] else [])
  {
    assert (steps + [step])[..|steps|] == steps;
  }

  function HandleCalls(s: System, id: Guid): seq<Call> {
    if id in s.handles then s.handles[id].calls else []
  }

  lemma HandleCallsAfter(s: System, step: Step, id: Guid)
    requires Enabled(s, step) && Inv(s)
    ensures HandleCalls(Apply(s, step), id)
            == HandleCalls(s, id) + (if step.CallSession? && step.id == id then [step.call] else [])
  {
    hide Inv, Enabled, Apply, HandleCalls;
    if step.TakeSession? {
      TakingKeepsCalls(s, id);
    } else if step.CallSession? {
      CallIsAdded(s, step, id);
    } else if step.Perform? {
      PerformKeepsCalls(s, step.id, id);
    } else {
      OthersKeepHandles(s, step);
      assert HandleCalls(Apply(s, step), id) == HandleCalls(s, id) by { SameHandles(s, Apply(s, step), id); }
    }
    assert HandleCalls(s, id) + [] == HandleCalls(s, id);
  }

  lemma SameHandles(s: System, t: System, id: Guid)
    requires t.handles == s.handles
    ensures HandleCalls(t, id) == HandleCalls(s, id)
  {
  }

  lemma TakingKeepsCalls(s: System, id: Guid)
    requires Enabled(s, TakeSession) && Inv(s)
    ensures HandleCalls(Apply(s, TakeSession), id) == HandleCalls(s, id)
  {
    hide PeerOk, ClientOk, HandleOk, LogsOk;
    NextPendingIsNew(s);
  }

  lemma CallIsAdded(s: System, step: Step, id: Guid)
    requires Enabled(s, step) && step.CallSession?
    ensures HandleCalls(Apply(s, step), id) == HandleCalls(s, id) + (if step.id == id then [step.call] else [])
  {
    hide CallActions;
  }

  lemma PerformKeepsCalls(s: System, j: Guid, id: Guid)
    requires Enabled(s, Perform(j))
    ensures HandleCalls(Apply(s, Perform(j)), id) == HandleCalls(s, id)
  {
    hide Act, ActionEvent, AliveIn;
  }

  lemma OthersKeepHandles(s: System, step: Step)
    requires Enabled(s, step) && !step.TakeSession? && !step.CallSession? && !step.Perform?
    ensures Apply(s, step).handles == s.handles
  {
    hide Groom, OnProgress, OnReply, TakeReply, TakeProgressData, DisposeEntry, Erase, PublishCancel, PublishRequest;
  }

  lemma {:induction false} CallsThroughout(states: seq<System>, steps: seq<Step>, n: nat, id: Guid)
    requires FromStart(states, steps) && n <= |steps|
    ensures CallsTold(states[n], steps[..n], id)
  {
    hide CallsTold, Inv, Enabled, Apply;
    StartOfRun(states, steps);
    if n == 0 {
      assert steps[..0] == [];
      NoCallsAtStart(states, steps, id);
    } else {
      CallsThroughout(states, steps, n - 1, id);
      RunKeeps(states, steps, n - 1);
      StepOf(states, steps, n - 1);
      CallsStep(states[n - 1], steps[..n - 1], steps[n - 1], id);
      assert steps[..n - 1] + [steps[n - 1]] == steps[..n];
    }
  }

  lemma NoCallsAtStart(states: seq<System>, steps: seq<Step>, id: Guid)
    requires FromStart(states, steps)
    ensures CallsTold(states[0], [], id)
  {
  }

  /** The marks and samples a sequence of calls asks for. */
  function ToldMarks(calls: seq<Call>): seq<ProgressEntry> {
    if calls == [] then [] else ToldMarks(calls[..|calls| - 1]) + CallMarks(calls[|calls| - 1])
  }

  function ToldReplies(calls: seq<Call>): seq<Sample> {
    if calls == [] then [] else ToldReplies(calls[..|calls| - 1]) + CallReplies(calls[|calls| - 1])
  }

  lemma {:induction false} ScriptTells(calls: seq<Call>)
    ensures SentMarks(Script(calls)) == [(PROG_START, [])] + ToldMarks(calls)
    ensures SentReplies(Script(calls)) == ToldReplies(calls)
  {
    hide SentMarks, SentReplies, Script;
    if calls == [] {
      StartScript();
      assert [(PROG_START, [])] + ToldMarks([]) == [(PROG_START, [])];
    } else {
      ScriptStep(calls);
      ScriptTells(calls[..|calls| - 1]);
    }
  }

  /** What is published for a session, exactly: in every run, when the calls made on its handle have
      been performed, the marks on the topic are the start, those the calls asked for with their
      samples, and FAILED if the handle was destroyed alive; and the replies are those of the calls. */
  lemma PublishedAsTold(states: seq<System>, steps: seq<Step>, id: Guid)
    requires FromStart(states, steps)
    requires id in states[|steps|].handles && states[|steps|].handles[id].todo == []
    ensures var s, calls := states[|steps|], CallsOf(steps, id);
            && s.handles[id].calls == calls
            && Marks(s.server.progressLog, id)
               == [(PROG_START, [])] + ToldMarks(calls)
                  + (if s.handles[id].failedOnDispose then [(PROG_FAILED, [])] else [])
            && Replies(s.server.replyLog, id) == ToldReplies(calls)
  {
    hide Marks, Replies, SentMarks, SentReplies, Script, Entry, Inv, CallsOf, ToldMarks, ToldReplies;
    var s := states[|steps|];
    StartOfRun(states, steps);
    RunKeeps(states, steps, |steps|);
    CallsThroughout(states, steps, |steps|, id);
    assert steps[..|steps|] == steps;
    HandleInv(s, id);
    assert s.handles[id].done + [] == s.handles[id].done;
    ScriptTells(s.handles[id].calls);
  }

  lemma {:induction false} UnreadReplyIsStored(states: seq<System>, steps: seq<Step>, n: nat, id: Guid)
    requires FromStart(states, steps) && n <= |steps| && GetReply(id.writer, id) !in steps
    ensures Known(states[n], id) && DataOf(states[n], id).replyReady ==> DataOf(states[n], id).reply.Some?
  {
    hide Known, Enabled, Apply;
    if n == 0 {
      NothingKnownAtStart(states, steps, id);
    } else {
      UnreadReplyIsStored(states, steps, n - 1, id);
      StepOf(states, steps, n - 1);
      if Known(states[n], id) {
        StepStores(states[n - 1], steps[n - 1], id);
      }
    }
  }

  lemma NothingKnownAtStart(states: seq<System>, steps: seq<Step>, id: Guid)
    requires FromStart(states, steps)
    ensures !Known(states[0], id)
  {
  }

  /** The reply reaches the caller: in every run, once the calls on a handle have been performed and
      everything has been delivered, a client that knows the session and has not fetched its reply
      holds exactly the body that the handle was last told to reply with. */
  lemma ReplyReachesCaller(states: seq<System>, steps: seq<Step>, id: Guid)
    requires FromStart(states, steps) && Known(states[|steps|], id) && Drained(states[|steps|], id.writer)
    requires id in states[|steps|].handles && states[|steps|].handles[id].todo == []
    requires GetReply(id.writer, id) !in steps
    ensures var d, told := DataOf(states[|steps|], id), ToldReplies(CallsOf(steps, id));
            && (d.replyReady <==> told != [])
            && d.reply == if told == [] then None else Some(told[|told| - 1])
  {
    hide Marks, Replies, SentMarks, SentReplies, Script, Entry, Inv, CallsOf, ToldMarks, ToldReplies, ReplyWaits;
    var s := states[|steps|];
    PublishedAsTold(states, steps, id);
    UnreadReplyIsStored(states, steps, |steps|, id);
    StartOfRun(states, steps);
    RunKeeps(states, steps, |steps|);
    PeerInv(s, id.writer);
    SettledEntry(s.peers[id.writer], id, s.server);
  }

  // ---- alive ----

  /** A session is alive at its client from the moment it is started. */
  lemma NewSessionIsAlive(s: System, w: Writer, request: Sample)
    requires Reachable(s) && Enabled(s, StartSession(w, request))
    ensures var c := Apply(s, StartSession(w, request)).peers[w].client;
            && c.lastId.writer == w && c.lastId !in s.peers[w].client.session
            && IsAlive(c, true, c.lastId) && !c.session[c.lastId].replyReady
  {
    hide HandleOk, ClientOk, Delivered, Reachable;
    ReachableInv(s);
    PeerInv(s, w);
  }

  /** And it is alive while the server reports progress: once everything is delivered, exactly if no
      reply was published and the last mark is in 0..99, a client that knows the session finds it
      alive. */
  lemma AliveWhileRunning(s: System, id: Guid)
    requires Reachable(s) && id in s.handles && Drained(s, id.writer) && Known(s, id)
    requires Replies(s.server.replyLog, id) == []
    ensures IsAlive(s.peers[id.writer].client, true, id) <==> 0 <= LastMark(Marks(s.server.progressLog, id)) < 100
  {
    hide Marks, Replies, Reachable;
    SettledMark(s, id);
  }
}
