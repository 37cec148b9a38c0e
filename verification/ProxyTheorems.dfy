/** When an accepted response is the answer to the very request that was sent. */
module ProxyTheorems {
  import opened Common
  import opened ProxyLoop
  import opened ProxyProtocol

  // ----- every run: ids grow within a session -----

  ghost predicate Genuine(s: System, res: Response) {
    && res.serial < |s.issued|
    && res.session == s.issued[res.serial].session
    && res.client == s.issued[res.serial].client
    && res.resId == s.issued[res.serial].reqId
  }

  ghost predicate Known(s: System, req: Request) {
    req.serial < |s.issued| && s.issued[req.serial] == req
  }

  ghost predicate IdsGrow(s: System) {
    && (forall k :: 0 <= k < |s.issued| ==> s.issued[k].serial == k && s.issued[k].session < s.opens)
    && (forall j, k :: 0 <= j < k < |s.issued| && s.issued[j].session == s.issued[k].session ==>
          s.issued[j].reqId < s.issued[k].reqId)
  }

  predicate BelowNext(client: Client, c: nat, req: Request) {
    client.inUse && req.session == client.session ==> req.reqId < client.reqId && req.client == c
  }

  /** An open client's next id is above every id of its session, and sessions are not shared. */
  ghost predicate ClientsFresh(s: System)
    requires Shape(s)
  {
    && (forall c :: 0 <= c < CLIENT_MAX && s.clients[c].inUse ==> s.clients[c].session < s.opens)
    && (forall c, k :: 0 <= c < CLIENT_MAX && 0 <= k < |s.issued| ==>
          BelowNext(s.clients[c], c, s.issued[k]))
    && (forall c, d :: 0 <= c < d < CLIENT_MAX && s.clients[c].inUse && s.clients[d].inUse ==>
          s.clients[c].session != s.clients[d].session)
  }

  ghost predicate Messages(s: System)
    requires Shape(s)
  {
    && (forall req :: req in s.requests ==> Known(s, req))
    && (forall res :: res in s.responses ==> Genuine(s, res))
    && (forall i :: 0 <= i < |s.mailbox| ==> Genuine(s, s.mailbox[i]))
    && (forall c :: 0 <= c < CLIENT_MAX && !s.pcs[c].Idle? ==> Known(s, s.pcs[c].req))
    && (forall c :: 0 <= c < CLIENT_MAX && s.pcs[c].Returning? && s.pcs[c].hdr.Some? ==>
          Genuine(s, s.pcs[c].hdr.value))
  }

  /** The mutex holder's request is the latest one issued. */
  ghost predicate Exclusion(s: System)
    requires Shape(s)
  {
    forall c :: 0 <= c < CLIENT_MAX && !s.pcs[c].Idle? ==>
      s.mutex == Some(c) && s.pcs[c].req.serial == |s.issued| - 1
  }

  /** A message that left the loop is not older than the request. */
  ghost predicate LoopExit(s: System)
    requires Shape(s)
  {
    forall c :: 0 <= c < CLIENT_MAX && s.pcs[c].Returning? && s.pcs[c].hdr.Some? ==>
      s.pcs[c].hdr.value.resId >= s.pcs[c].req.reqId
  }

  ghost predicate AnswersOk(s: System) {
    forall i :: 0 <= i < |s.answers| ==>
      && Known(s, s.answers[i].0)
      && Genuine(s, s.answers[i].1)
      && s.answers[i].1.resId == s.answers[i].0.reqId
  }

  ghost predicate Inv(s: System) {
    && Shape(s)
    && IdsGrow(s)
    && ClientsFresh(s)
    && Messages(s)
    && Exclusion(s)
    && LoopExit(s)
    && AnswersOk(s)
  }

  lemma BeginKeeps(s: System, c: nat, resLen: nat)
    requires Inv(s) && c < CLIENT_MAX && s.clients[c].inUse && s.pcs[c].Idle? && s.mutex.None?
    ensures Inv(BeginCmd(s, c, resLen))
  {
    var r := BeginCmd(s, c, resLen);
    assert forall k :: 0 <= k < |s.issued| ==> r.issued[k] == s.issued[k];
    assert forall req :: Known(s, req) ==> Known(r, req);
    assert forall res :: Genuine(s, res) ==> Genuine(r, res);
  }

  /** Two states with the same requests issued agree on what is known and genuine. */
  lemma SameIssued(s: System, r: System)
    requires r.issued == s.issued
    ensures forall req :: Known(s, req) == Known(r, req)
    ensures forall res :: Genuine(s, res) == Genuine(r, res)
  {
  }

  lemma OpenCloseKeeps(s: System, step: Step)
    requires Inv(s) && (step.Open? || step.Close?)
    ensures Inv(Apply(s, step))
  {
    var r := Apply(s, step);
    SameIssued(s, r);
  }

  lemma ChannelKeeps(s: System, step: Step)
    requires Inv(s)
    requires step.Serve? || step.LoseRequest? || step.Deliver? || step.LoseResponse?
    ensures Inv(Apply(s, step))
  {
    var r := Apply(s, step);
    SameIssued(s, r);
  }

  lemma SendKeeps(s: System, c: nat, ok: bool)
    requires Inv(s) && c < CLIENT_MAX && s.pcs[c].Sending?
    ensures Inv(SendReq(s, c, ok))
  {
    SameIssued(s, SendReq(s, c, ok));
  }

  lemma ReturnKeeps(s: System, c: nat)
    requires Inv(s) && c < CLIENT_MAX && s.pcs[c].Returning?
    ensures Inv(ReturnCmd(s, c))
  {
    SameIssued(s, ReturnCmd(s, c));
  }

  /** A wait that returns a message: the mailbox loses its head. */
  lemma PendMsgKeeps(s: System, c: nat)
    requires Inv(s) && c < CLIENT_MAX && s.pcs[c].Waiting? && s.mailbox != []
    ensures Inv(Pended(s, c, PMsg(s.mailbox[0])))
  {
    SameIssued(s, Pended(s, c, PMsg(s.mailbox[0])));
    assert Genuine(s, s.mailbox[0]);
  }

  /** A wait that fails: only the program counter moves. */
  lemma PendFailKeeps(s: System, c: nat, p: PendResult)
    requires Inv(s) && c < CLIENT_MAX && s.pcs[c].Waiting? && !p.PMsg?
    ensures Inv(Pended(s, c, p))
  {
    SameIssued(s, Pended(s, c, p));
  }

  lemma StepKeeps(s: System, step: Step)
    requires Inv(s)
    ensures Inv(Apply(s, step))
  {
    match step
    case Begin(c, resLen) =>
      if c < CLIENT_MAX && s.clients[c].inUse && s.pcs[c].Idle? && s.mutex.None? {
        BeginKeeps(s, c, resLen);
      }
    case Open => OpenCloseKeeps(s, step);
    case Close(_) => OpenCloseKeeps(s, step);
    case Serve(_, _, _) => ChannelKeeps(s, step);
    case LoseRequest(_) => ChannelKeeps(s, step);
    case Deliver(_) => ChannelKeeps(s, step);
    case LoseResponse(_) => ChannelKeeps(s, step);
    case Send(c, ok) => if c < CLIENT_MAX && s.pcs[c].Sending? { SendKeeps(s, c, ok); }
    case Return(c) => if c < CLIENT_MAX && s.pcs[c].Returning? { ReturnKeeps(s, c); }
    case PendMsg(c) =>
      if c < CLIENT_MAX && s.pcs[c].Waiting? && s.mailbox != [] { PendMsgKeeps(s, c); }
    case PendTimeout(c, stale) =>
      if c < CLIENT_MAX && s.pcs[c].Waiting? { PendFailKeeps(s, c, PTimeout(stale)); }
    case PendError(c, stale) =>
      if c < CLIENT_MAX && s.pcs[c].Waiting? { PendFailKeeps(s, c, PError(stale)); }
  }

  lemma {:induction false} RunKeeps(steps: seq<Step>)
    ensures Inv(Run(steps))
  {
    if steps != [] {
      RunKeeps(steps[..|steps| - 1]);
      StepKeeps(Run(steps[..|steps| - 1]), steps[|steps| - 1]);
    }
  }

  /** Within a session an id names one request. */
  lemma IdNamesRequest(s: System, j: nat, k: nat)
    requires IdsGrow(s) && j < |s.issued| && k < |s.issued|
    requires s.issued[j].session == s.issued[k].session && s.issued[j].reqId == s.issued[k].reqId
    ensures j == k
  {
  }

  /** The response was made for this request. */
  predicate Answers(res: Response, req: Request) {
    res.serial == req.serial
  }

  /** In every run, with any timeouts, losses, reordering and reopening: an accepted response
      is the answer to its request exactly when it comes from the same session of the client. */
  lemma AcceptedIffSameSession(steps: seq<Step>, i: nat)
    requires i < |Run(steps).answers|
    ensures var (req, res) := Run(steps).answers[i];
            Answers(res, req) <==> res.session == req.session
  {
    RunKeeps(steps);
    var s := Run(steps);
    var (req, res) := s.answers[i];
    if res.session == req.session {
      IdNamesRequest(s, res.serial, req.serial);
    }
  }

  // ----- one session -----

  function CountOpens(steps: seq<Step>): nat {
    if steps == [] then 0
    else CountOpens(steps[..|steps| - 1]) + if steps[|steps| - 1].Open? then 1 else 0
  }

  lemma {:induction false} OpensBounded(steps: seq<Step>)
    ensures Run(steps).opens <= CountOpens(steps)
  {
    if steps != [] {
      OpensBounded(steps[..|steps| - 1]);
    }
  }

  /** A response with an id above the request's has left the wait loop. */
  predicate TooLarge(pc: Pc) {
    pc.Returning? && pc.hdr.Some? && pc.hdr.value.resId > pc.req.reqId
  }

  /** One client opened once: every accepted response answers its request, and a response id
      larger than the request id never leaves the wait loop. */
  lemma SingleSessionMatches(steps: seq<Step>)
    requires CountOpens(steps) <= 1
    ensures forall i :: 0 <= i < |Run(steps).answers| ==>
              Answers(Run(steps).answers[i].1, Run(steps).answers[i].0)
    ensures forall c :: 0 <= c < CLIENT_MAX ==> !TooLarge(Run(steps).pcs[c])
  {
    RunKeeps(steps);
    OpensBounded(steps);
    var s := Run(steps);
    forall i | 0 <= i < |s.answers|
      ensures Answers(s.answers[i].1, s.answers[i].0)
    {
      AcceptedIffSameSession(steps, i);
    }
    forall c | 0 <= c < CLIENT_MAX
      ensures !TooLarge(s.pcs[c])
    {
      if s.pcs[c].Returning? && s.pcs[c].hdr.Some? {
        var k := s.pcs[c].hdr.value.serial;
        assert s.issued[k].session == 0 && s.issued[|s.issued| - 1] == s.pcs[c].req;
      }
    }
  }

  // ----- any number of clients, no failed wait -----

  predicate WaitFails(step: Step) { step.PendTimeout? || step.PendError? }

  ghost predicate Matches(res: Response, req: Request) {
    res.serial == req.serial && res.resId == req.reqId
  }

  ghost predicate Quiet(s: System) {
    s.requests == {} && s.responses == {} && s.mailbox == []
  }

  /** At most one message exists, and it belongs to `req`. */
  ghost predicate OneInFlight(s: System, req: Request) {
    || Quiet(s)
    || (s.requests == {req} && s.responses == {} && s.mailbox == [])
    || (s.requests == {} && (exists res :: Matches(res, req) && s.responses == {res}) && s.mailbox == [])
    || (s.requests == {} && s.responses == {} && |s.mailbox| == 1 && Matches(s.mailbox[0], req))
  }

  ghost predicate Tidy(s: System)
    requires Shape(s)
  {
    && (s.mutex.None? ==> Quiet(s))
    && (forall c :: 0 <= c < CLIENT_MAX && !s.pcs[c].Idle? ==> s.mutex == Some(c))
    && (s.mutex.Some? ==> s.mutex.value < CLIENT_MAX && !s.pcs[s.mutex.value].Idle?)
    && (forall c :: 0 <= c < CLIENT_MAX ==>
          match s.pcs[c]
          case Idle => true
          case Sending(_, _) => Quiet(s)
          case Waiting(req, _, status) => status == Sok && OneInFlight(s, req)
          case Returning(req, _, status, hdr) =>
            Quiet(s) && (status == Sok ==> hdr.Some? && Matches(hdr.value, req)))
    && (forall i :: 0 <= i < |s.answers| ==> Matches(s.answers[i].1, s.answers[i].0))
  }

  lemma TidyServe(s: System, req: Request, len: nat, status: int)
    requires Shape(s) && Tidy(s) && req in s.requests
    ensures Tidy(Apply(s, Serve(req, len, status)))
  {
    var r := Apply(s, Serve(req, len, status));
    var c := s.mutex.value;
    assert s.requests == {req} && s.pcs[c].Waiting? && s.pcs[c].req == req;
    assert r.responses == {Echo(req, len, status)};
    assert r.requests == {};
    assert Matches(Echo(req, len, status), req);
  }

  lemma TidyDeliver(s: System, res: Response)
    requires Shape(s) && Tidy(s) && res in s.responses
    ensures Tidy(Apply(s, Deliver(res)))
  {
    var r := Apply(s, Deliver(res));
    var c := s.mutex.value;
    assert s.pcs[c].Waiting?;
    var only :| Matches(only, s.pcs[c].req) && s.responses == {only};
    assert only == res;
    if r != s {
      assert r.responses == {};
      assert r.mailbox == [res];
    }
  }

  lemma TidyLose(s: System, step: Step)
    requires Shape(s) && Tidy(s) && (step.LoseRequest? || step.LoseResponse?)
    ensures Tidy(Apply(s, step))
  {
    var r := Apply(s, step);
    if step.LoseRequest? {
      assert r.requests == s.requests || (s.requests == {step.req} && r.requests == {});
    } else {
      assert r.responses == s.responses || step.res in s.responses;
      if r.responses != s.responses {
        var c := s.mutex.value;
        var only :| Matches(only, s.pcs[c].req) && s.responses == {only};
        assert r.responses == {};
      }
    }
  }

  lemma TidyStep(s: System, step: Step)
    requires Shape(s) && Tidy(s) && !WaitFails(step)
    ensures Tidy(Apply(s, step))
  {
    match step
    case Serve(req, len, status) => if req in s.requests { TidyServe(s, req, len, status); }
    case Deliver(res) => if res in s.responses { TidyDeliver(s, res); }
    case LoseRequest(_) => TidyLose(s, step);
    case LoseResponse(_) => TidyLose(s, step);
    case _ =>
  }

  lemma {:induction false} TidyRun(steps: seq<Step>)
    requires forall i :: 0 <= i < |steps| ==> !WaitFails(steps[i])
    ensures Tidy(Run(steps))
  {
    if steps != [] {
      TidyRun(steps[..|steps| - 1]);
      TidyStep(Run(steps[..|steps| - 1]), steps[|steps| - 1]);
    }
  }

  /** The client's next wait takes the head of the mailbox and leaves the loop with it, with the
      id it asked for: the response is neither dropped as late nor refused for its id. */
  ghost predicate HeadReachesRequester(s: System)
    requires Shape(s)
  {
    s.mailbox != [] ==>
      && s.mutex.Some? && s.mutex.value < CLIENT_MAX
      && var pc := s.pcs[s.mutex.value];
         && pc.Waiting?
         && Answers(s.mailbox[0], pc.req)
         && s.mailbox[0].resId == pc.req.reqId
         && Apply(s, PendMsg(s.mutex.value)).pcs[s.mutex.value]
            == Returning(pc.req, pc.resLen, Sok, Some(s.mailbox[0]))
  }

  /** Any number of clients and sessions, no failed wait: when the mutex is free nothing is in
      flight and the mailbox is empty, the mailbox never holds two responses, every response in it
      reaches the client that waits for it, and every accepted response answers its request. */
  lemma NoTimeoutMatches(steps: seq<Step>)
    requires forall i :: 0 <= i < |steps| ==> !WaitFails(steps[i])
    ensures var s := Run(steps);
            && (s.mutex.None? ==> s.requests == {} && s.responses == {} && s.mailbox == [])
            && |s.mailbox| <= 1
            && HeadReachesRequester(s)
            && (forall i :: 0 <= i < |s.answers| ==> Answers(s.answers[i].1, s.answers[i].0))
  {
    TidyRun(steps);
    var s := Run(steps);
    if s.mutex.Some? {
      assert !s.pcs[s.mutex.value].Idle?;
    }
  }

  // ----- two clients and one timeout break it -----

  lemma RunSnoc(steps: seq<Step>, step: Step)
    ensures Run(steps + [step]) == Apply(Run(steps), step)
  {
    assert (steps + [step])[..|steps|] == steps;
  }

  /** Both clients are open; client 0's command timed out with its request still on the way. */
  lemma TimedOut() returns (steps: seq<Step>)
    ensures var s, req := Run(steps), Request(0, 0, 0, 0);
            && s.clients == [Client(true, 0, 1), Client(true, 1, 0)]
            && s.pcs == [Idle, Idle] && s.mutex.None?
            && s.requests == {req} && s.responses == {} && s.mailbox == []
            && s.issued == [req] && s.answers == []
  {
    steps := [];
    RunSnoc(steps, Open);
    steps := steps + [Open];
    assert Run(steps).clients == [Client(true, 0, 0), Client(false, 0, 0)];
    RunSnoc(steps, Open);
    steps := steps + [Open];
    assert FirstFree([Client(true, 0, 0), Client(false, 0, 0)], 0) == Some(1);
    assert Run(steps).clients == [Client(true, 0, 0), Client(true, 1, 0)];
    RunSnoc(steps, Begin(0, 8));
    steps := steps + [Begin(0, 8)];
    RunSnoc(steps, Send(0, true));
    steps := steps + [Send(0, true)];
    RunSnoc(steps, PendTimeout(0, 7));
    steps := steps + [PendTimeout(0, 7)];
    RunSnoc(steps, Return(0));
    steps := steps + [Return(0)];
  }

  /** Client 1 waits for its first answer while the late answer to client 0 is already there. */
  lemma LateAnswerArrives() returns (steps: seq<Step>)
    ensures var s := Run(steps);
            && s.clients == [Client(true, 0, 1), Client(true, 1, 1)]
            && s.pcs[1] == Waiting(Request(1, 1, 0, 1), 8, Sok) && s.mutex == Some(1)
            && s.mailbox == [Echo(Request(0, 0, 0, 0), 8, 0)]
            && s.answers == []
  {
    steps := TimedOut();
    var late := Request(0, 0, 0, 0);
    RunSnoc(steps, Begin(1, 8));
    steps := steps + [Begin(1, 8)];
    RunSnoc(steps, Send(1, true));
    steps := steps + [Send(1, true)];
    RunSnoc(steps, Serve(late, 8, 0));
    steps := steps + [Serve(late, 8, 0)];
    RunSnoc(steps, Deliver(Echo(late, 8, 0)));
    steps := steps + [Deliver(Echo(late, 8, 0))];
  }

  /** Client 1 then takes the late answer to client 0, whose id is the same: with two open
      clients one timeout is enough to hand a caller somebody else's response. */
  lemma TwoClientsAndATimeout() returns (steps: seq<Step>)
    ensures var s := Run(steps);
            && |s.answers| == 1
            && !Answers(s.answers[0].1, s.answers[0].0)
            && s.answers[0].1.client != s.answers[0].0.client
  {
    steps := LateAnswerArrives();
    RunSnoc(steps, PendMsg(1));
    steps := steps + [PendMsg(1)];
    RunSnoc(steps, Return(1));
    steps := steps + [Return(1)];
  }

  // ----- a command that nothing disturbs -----

  /** The request is sent. */
  function AskQuietly(s: System, c: nat, resLen: nat): (r: System)
    requires Shape(s) && c < CLIENT_MAX
    ensures Shape(r)
  {
    Apply(Apply(s, Begin(c, resLen)), Send(c, true))
  }

  /** The server answers it and the handler posts the answer. */
  function AnswerQuietly(s: System, req: Request, len: nat, status: int): (r: System)
    requires Shape(s)
    ensures Shape(r)
  {
    Apply(Apply(s, Serve(req, len, status)), Deliver(Echo(req, len, status)))
  }

  /** The steps of one command whose messages are neither lost nor late: request, answer with the given
      length and status, final checks. */
  function CommandQuietly(s: System, c: nat, resLen: nat, len: nat, status: int): System
    requires Shape(s) && c < CLIENT_MAX
  {
    var req := Request(c, s.clients[c].session, s.clients[c].reqId, |s.issued|);
    var answered := AnswerQuietly(AskQuietly(s, c, resLen), req, len, status);
    Apply(Apply(answered, PendMsg(c)), Return(c))
  }

  lemma QuietAsk(s: System, c: nat, resLen: nat)
    requires Shape(s) && c < CLIENT_MAX && s.clients[c].inUse && s.pcs[c].Idle? && s.mutex.None?
    ensures var cl := s.clients[c];
            var req := Request(c, cl.session, cl.reqId, |s.issued|);
            AskQuietly(s, c, resLen)
            == s.(mutex := Some(c), clients := s.clients[c := Client(true, cl.session, cl.reqId + 1)],
                  issued := s.issued + [req], pcs := s.pcs[c := Waiting(req, resLen, Sok)],
                  requests := s.requests + {req})
  {
    assert Apply(s, Begin(c, resLen)).pcs[c].Sending?;
  }

  lemma QuietAnswer(s: System, req: Request, len: nat, status: int)
    requires Shape(s) && req in s.requests && Echo(req, len, status) !in s.responses && s.mailbox == []
    ensures AnswerQuietly(s, req, len, status)
         == s.(requests := s.requests - {req}, mailbox := [Echo(req, len, status)])
  {
    assert s.responses + {Echo(req, len, status)} - {Echo(req, len, status)} == s.responses;
  }

  lemma QuietTake(s: System, c: nat, req: Request, resLen: nat, res: Response)
    requires Shape(s) && c < CLIENT_MAX && s.pcs[c] == Waiting(req, resLen, Sok) && s.mailbox == [res]
    requires res.resId == req.reqId
    ensures Apply(Apply(s, PendMsg(c)), Return(c))
         == s.(mailbox := [], mutex := None, pcs := s.pcs[c := Idle],
               answers := if res.len == resLen then s.answers + [(req, res)] else s.answers)
  {
    var r := Apply(s, PendMsg(c));
    assert r.pcs[c] == Returning(req, resLen, Sok, Some(res));
    assert r.mailbox == [];
  }

  /** It accepts exactly its own answer if the length is the expected one, and else fails; either way it
      uses up one request id and leaves mutex, mailbox and channel as they were. */
  lemma QuietCommand(s: System, c: nat, resLen: nat, len: nat, status: int)
    requires Inv(s) && c < CLIENT_MAX && s.clients[c].inUse && s.pcs[c].Idle? && s.mutex.None?
    requires s.mailbox == []
    ensures var cl := s.clients[c];
            var req := Request(c, cl.session, cl.reqId, |s.issued|);
            CommandQuietly(s, c, resLen, len, status)
            == s.(clients := s.clients[c := Client(true, cl.session, cl.reqId + 1)],
                  issued := s.issued + [req],
                  answers := if len == resLen then s.answers + [(req, Echo(req, len, status))] else s.answers)
  {
    var req := Request(c, s.clients[c].session, s.clients[c].reqId, |s.issued|);
    assert req !in s.requests && Echo(req, len, status) !in s.responses;
    QuietAsk(s, c, resLen);
    QuietAnswer(AskQuietly(s, c, resLen), req, len, status);
    QuietTake(AnswerQuietly(AskQuietly(s, c, resLen), req, len, status), c, req, resLen, Echo(req, len, status));
    assert s.requests + {req} - {req} == s.requests;
    assert s.pcs[c := Waiting(req, resLen, Sok)][c := Idle] == s.pcs;
  }

  /** A request that cannot be sent uses up its id and fails the command; nothing is on the way. */
  lemma FailedSend(s: System, c: nat, resLen: nat)
    requires Shape(s) && c < CLIENT_MAX && s.clients[c].inUse && s.pcs[c].Idle? && s.mutex.None?
    ensures var cl, failed := s.clients[c], Apply(Apply(s, Begin(c, resLen)), Send(c, false));
            var req := Request(c, cl.session, cl.reqId, |s.issued|);
            && failed.pcs[c] == Returning(req, resLen, Efail, None)
            && Conclude(req.reqId, resLen, Efail, None) == Failed(Efail)
            && Apply(failed, Return(c))
               == s.(clients := s.clients[c := Client(true, cl.session, cl.reqId + 1)],
                     issued := s.issued + [req])
  {
    var failed := Apply(Apply(s, Begin(c, resLen)), Send(c, false));
    assert failed.pcs[c].Returning?;
    assert Apply(failed, Return(c)).pcs == s.pcs;
  }

  /** The waits of a command in the system, until it leaves its loop. */
  function PendAll(s: System, c: nat, pends: seq<PendResult>): (r: System)
    requires Shape(s) && c < CLIENT_MAX
    ensures Shape(r)
    decreases |pends|
  {
    if pends == [] || !s.pcs[c].Waiting? then s else PendAll(Pended(s, c, pends[0]), c, pends[1..])
  }

  /** For all results of its waits a command in the system ends as its receive loop says, or waits on;
      it hands out a response exactly when the loop accepts it. */
  lemma {:induction false} CommandIsAwait(s: System, c: nat, req: Request, resLen: nat, st: Status,
                                          pends: seq<PendResult>)
    requires Shape(s) && c < CLIENT_MAX && s.pcs[c] == Waiting(req, resLen, st)
    ensures var r, o := PendAll(s, c, pends), Await(st, req.reqId, resLen, pends);
            if o.None? then r.pcs[c].Waiting? && r.answers == s.answers
            else
              && r.pcs[c].Returning?
              && Conclude(req.reqId, resLen, r.pcs[c].status, r.pcs[c].hdr) == o.value
              && ReturnCmd(r, c).answers
                 == if o.value.Accepted? then s.answers + [(req, o.value.res)] else s.answers
    decreases |pends|
  {
    if pends != [] {
      var t := Pended(s, c, pends[0]);
      if t.pcs[c].Waiting? {
        CommandIsAwait(t, c, req, resLen, t.pcs[c].status, pends[1..]);
      }
    }
  }

  lemma FirstFreeUpTo(clients: seq<Client>, c: nat)
    requires c < |clients| && !clients[c].inUse
    ensures var d := FirstFree(clients, 0); d.Some? && d.value <= c
  {
  }

  /** A client that is closed and opened again starts a new session with request ids from zero, in the
      first client object that is free. */
  lemma ReopenRestarts(s: System, c: nat)
    requires Shape(s) && c < CLIENT_MAX && s.clients[c].inUse && s.pcs[c].Idle?
    ensures var closed := Apply(s, Close(c));
            && !closed.clients[c].inUse && closed == s.(clients := closed.clients)
            && (forall d :: 0 <= d < CLIENT_MAX && d != c ==> closed.clients[d] == s.clients[d])
            && exists d: nat ::
                 && d <= c && !closed.clients[d].inUse
                 && (forall k :: 0 <= k < d ==> closed.clients[k].inUse)
                 && Apply(closed, Open)
                    == closed.(clients := closed.clients[d := Client(true, s.opens, 0)], opens := s.opens + 1)
  {
    var closed := Apply(s, Close(c));
    assert closed.clients[c] == Client(false, 0, 0);
    var d := FirstFree(closed.clients, 0);
    FirstFreeUpTo(closed.clients, c);
  }
}
