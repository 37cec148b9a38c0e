/** When a command can be handed somebody else's response: the exact condition on the state in
    which the command begins. */
module ProxyMisdelivery {
  import opened Common
  import opened Iteration
  import opened ProxyLoop
  import opened ProxyProtocol
  import opened ProxyTheorems

  /** The mailbox without its leading responses to ids below `id`, which the wait loop drops. */
  function DropLate(mailbox: seq<Response>, id: nat): seq<Response> {
    if mailbox != [] && mailbox[0].resId < id then DropLate(mailbox[1..], id) else mailbox
  }

  /** A response the final checks let through. */
  predicate Passes(res: Response, id: nat, resLen: nat) {
    res.resId == id && res.len == resLen
  }

  /** Before the command: the first response that is not dropped would pass; or none is left, and
      a response under way would pass or a request under way carries the id. */
  ghost predicate Risk(s: System, id: nat, resLen: nat) {
    var rest := DropLate(s.mailbox, id);
    if rest != [] then Passes(rest[0], id, resLen)
    else
      || (exists req :: req in s.requests && req.reqId == id)
      || (exists res :: res in s.responses && Passes(res, id, resLen))
  }

  /** The command with serial number `k` has accepted a response that is not its answer. */
  ghost predicate Misdelivered(s: System, k: nat) {
    exists i :: 0 <= i < |s.answers| && s.answers[i].0.serial == k && !Answers(s.answers[i].1, s.answers[i].0)
  }

  // ----- continuations -----

  ghost function Act(s: System, step: Step): System {
    if Shape(s) then Apply(s, step) else s
  }

  /** The state after `steps`, from `s`. */
  ghost function ApplyAll(s: System, steps: seq<Step>): System { After(Act, s, steps) }

  ghost predicate Reaches(s: System, r: System) { Reachable(Act, s, r) }

  // ----- without the risk the command is safe -----

  lemma {:induction false} DropLateAppend(mailbox: seq<Response>, x: Response, id: nat)
    ensures DropLate(mailbox + [x], id)
         == if DropLate(mailbox, id) != [] then DropLate(mailbox, id) + [x]
            else if x.resId < id then [] else [x]
  {
    if mailbox == [] {
      assert mailbox + [x] == [x];
    } else if mailbox[0].resId < id {
      assert (mailbox + [x])[1..] == mailbox[1..] + [x];
      DropLateAppend(mailbox[1..], x, id);
    }
  }

  /** No response but the command's own (serial `k`) can pass. */
  ghost predicate Guarded(s: System, k: nat, id: nat, resLen: nat) {
    var rest := DropLate(s.mailbox, id);
    if rest != [] then rest[0].serial == k || !Passes(rest[0], id, resLen)
    else
      && (forall req :: req in s.requests && req.reqId == id ==> req.serial == k)
      && (forall res :: res in s.responses && Passes(res, id, resLen) ==> res.serial == k)
  }

  /** The command in progress cannot end with a foreign response. */
  ghost predicate SafePc(s: System, pc: Pc, k: nat, id: nat, resLen: nat) {
    match pc
    case Idle => true
    case Sending(req, len) => req.reqId == id && len == resLen && Guarded(s, k, id, resLen)
    case Waiting(req, len, status) =>
      req.reqId == id && len == resLen && (status == Sok ==> Guarded(s, k, id, resLen))
    case Returning(req, len, status, hdr) =>
      && req.reqId == id && len == resLen
      && (status == Sok && hdr.Some? && Passes(hdr.value, id, resLen) ==> hdr.value.serial == k)
  }

  ghost predicate Safe(s: System, k: nat, id: nat, resLen: nat)
    requires Shape(s)
  {
    && k < |s.issued|
    && (forall c :: 0 <= c < CLIENT_MAX && !s.pcs[c].Idle? && s.pcs[c].req.serial == k ==>
          SafePc(s, s.pcs[c], k, id, resLen))
    && !Misdelivered(s, k)
  }

  lemma SafeChannel(s: System, k: nat, id: nat, resLen: nat, step: Step)
    requires Inv(s) && Guarded(s, k, id, resLen)
    requires step.Serve? || step.LoseRequest? || step.Deliver? || step.LoseResponse?
    ensures Guarded(Apply(s, step), k, id, resLen)
  {
    if step.Deliver? {
      DropLateAppend(s.mailbox, step.res, id);
    }
  }

  lemma SafeSend(s: System, c: nat, ok: bool, k: nat, id: nat, resLen: nat)
    requires Inv(s) && Safe(s, k, id, resLen) && c < CLIENT_MAX && s.pcs[c].Sending?
    ensures Safe(SendReq(s, c, ok), k, id, resLen)
  {
    var r := SendReq(s, c, ok);
    assert r.answers == s.answers;
    if s.pcs[c].req.serial == k {
      assert SafePc(s, s.pcs[c], k, id, resLen);
      assert SafePc(r, r.pcs[c], k, id, resLen);
    }
  }

  lemma SafePend(s: System, c: nat, p: PendResult, k: nat, id: nat, resLen: nat)
    requires Inv(s) && Safe(s, k, id, resLen) && c < CLIENT_MAX && s.pcs[c].Waiting?
    requires p.PMsg? ==> s.mailbox != [] && p.msg == s.mailbox[0]
    ensures Safe(Pended(s, c, p), k, id, resLen)
  {
    var r := Pended(s, c, p);
    assert r.answers == s.answers;
    if s.pcs[c].req.serial == k {
      assert SafePc(s, s.pcs[c], k, id, resLen);
      assert SafePc(r, r.pcs[c], k, id, resLen);
    }
  }

  lemma SafeReturn(s: System, c: nat, k: nat, id: nat, resLen: nat)
    requires Inv(s) && Safe(s, k, id, resLen) && c < CLIENT_MAX && s.pcs[c].Returning?
    ensures Safe(ReturnCmd(s, c), k, id, resLen)
  {
    var r := ReturnCmd(s, c);
    forall i | 0 <= i < |r.answers| && r.answers[i].0.serial == k
      ensures Answers(r.answers[i].1, r.answers[i].0)
    {
      if i < |s.answers| {
        assert r.answers[i] == s.answers[i];
      } else {
        assert SafePc(s, s.pcs[c], k, id, resLen);
      }
    }
  }

  lemma SafeStep(s: System, k: nat, id: nat, resLen: nat, step: Step)
    requires Inv(s) && Safe(s, k, id, resLen)
    ensures Safe(Apply(s, step), k, id, resLen)
  {
    match step
    case Send(c, ok) => if c < CLIENT_MAX && s.pcs[c].Sending? { SafeSend(s, c, ok, k, id, resLen); }
    case Return(c) => if c < CLIENT_MAX && s.pcs[c].Returning? { SafeReturn(s, c, k, id, resLen); }
    case PendMsg(c) =>
      if c < CLIENT_MAX && s.pcs[c].Waiting? && s.mailbox != [] {
        SafePend(s, c, PMsg(s.mailbox[0]), k, id, resLen);
      }
    case PendTimeout(c, stale) =>
      if c < CLIENT_MAX && s.pcs[c].Waiting? { SafePend(s, c, PTimeout(stale), k, id, resLen); }
    case PendError(c, stale) =>
      if c < CLIENT_MAX && s.pcs[c].Waiting? { SafePend(s, c, PError(stale), k, id, resLen); }
    case Begin(_, _) => SafeTable(s, k, id, resLen, step);
    case Open => SafeTable(s, k, id, resLen, step);
    case Close(_) => SafeTable(s, k, id, resLen, step);
    case _ => SafeMessage(s, k, id, resLen, step);
  }

  lemma SafeTable(s: System, k: nat, id: nat, resLen: nat, step: Step)
    requires Inv(s) && Safe(s, k, id, resLen) && (step.Begin? || step.Open? || step.Close?)
    ensures Safe(Apply(s, step), k, id, resLen)
  {
    var r := Apply(s, step);
    assert r.answers == s.answers && r.mailbox == s.mailbox;
    assert r.requests == s.requests && r.responses == s.responses;
    forall c | 0 <= c < CLIENT_MAX && !r.pcs[c].Idle? && r.pcs[c].req.serial == k
      ensures SafePc(r, r.pcs[c], k, id, resLen)
    {
      assert r.pcs[c] == s.pcs[c];
    }
  }

  lemma SafeMessage(s: System, k: nat, id: nat, resLen: nat, step: Step)
    requires Inv(s) && Safe(s, k, id, resLen)
    requires step.Serve? || step.LoseRequest? || step.Deliver? || step.LoseResponse?
    ensures Safe(Apply(s, step), k, id, resLen)
  {
    var r := Apply(s, step);
    assert r.answers == s.answers && r.pcs == s.pcs;
    if Guarded(s, k, id, resLen) {
      SafeChannel(s, k, id, resLen, step);
    }
  }

  lemma {:induction false} SafeAll(s: System, k: nat, id: nat, resLen: nat, steps: seq<Step>)
    requires Inv(s) && Safe(s, k, id, resLen)
    ensures Inv(ApplyAll(s, steps)) && Safe(ApplyAll(s, steps), k, id, resLen)
  {
    if steps != [] {
      var init := steps[..|steps| - 1];
      SafeAll(s, k, id, resLen, init);
      StepKeeps(ApplyAll(s, init), steps[|steps| - 1]);
      SafeStep(ApplyAll(s, init), k, id, resLen, steps[|steps| - 1]);
    }
  }

  /** The state in which client `c` can begin a command. */
  ghost predicate CanBegin(s: System, c: nat) {
    Inv(s) && c < CLIENT_MAX && s.clients[c].inUse && s.pcs[c].Idle? && s.mutex.None?
  }

  lemma SafeBegin(s: System, c: nat, resLen: nat)
    requires CanBegin(s, c) && !Risk(s, s.clients[c].reqId, resLen)
    ensures Safe(BeginCmd(s, c, resLen), |s.issued|, s.clients[c].reqId, resLen)
  {
    var r, k := BeginCmd(s, c, resLen), |s.issued|;
    assert r.answers == s.answers;
    forall i | 0 <= i < |s.answers| ensures s.answers[i].0.serial != k {
      assert Known(s, s.answers[i].0);
    }
  }

  // ----- with the risk some run goes wrong -----

  /** Client `c` waits for serial `k` and has not failed so far. */
  predicate WaitsFor(s: System, c: nat, req: Request, resLen: nat) {
    |s.pcs| == |s.clients| == CLIENT_MAX && c < CLIENT_MAX && s.pcs[c] == Waiting(req, resLen, Sok)
  }

  /** The late responses are taken and dropped one by one. */
  lemma {:induction false} TakeLate(s: System, c: nat, req: Request, resLen: nat) returns (r: System)
    requires WaitsFor(s, c, req, resLen)
    ensures Reaches(s, r)
    ensures r == s.(mailbox := DropLate(s.mailbox, req.reqId))
    decreases |s.mailbox|
  {
    ReachableSelf(Act, s);
    r := s;
    if s.mailbox != [] && s.mailbox[0].resId < req.reqId {
      var t := Apply(s, PendMsg(c));
      assert t == s.(mailbox := s.mailbox[1..]);
      ReachableStep(Act, s, s, PendMsg(c));
      r := TakeLate(t, c, req, resLen);
      ReachableTrans(Act, s, t, r);
    }
  }

  /** A passing response at the head of the mailbox is accepted. */
  lemma TakeHead(s: System, c: nat, req: Request, resLen: nat) returns (r: System)
    requires WaitsFor(s, c, req, resLen)
    requires s.mailbox != [] && Passes(s.mailbox[0], req.reqId, resLen)
    requires s.mailbox[0].serial != req.serial
    ensures Reaches(s, r) && Misdelivered(r, req.serial)
  {
    var t := Apply(s, PendMsg(c));
    ReachableSelf(Act, s);
    ReachableStep(Act, s, s, PendMsg(c));
    assert t.pcs[c] == Returning(req, resLen, Sok, Some(s.mailbox[0]));
    ReachableStep(Act, s, t, Return(c));
    r := Apply(t, Return(c));
    assert r.answers[|s.answers|] == (req, s.mailbox[0]);
  }

  /** A passing response under way is delivered and accepted. */
  lemma DeliverAndTake(s: System, c: nat, req: Request, resLen: nat, res: Response) returns (r: System)
    requires WaitsFor(s, c, req, resLen) && s.mailbox == []
    requires res in s.responses && Passes(res, req.reqId, resLen) && res.serial != req.serial
    ensures Reaches(s, r) && Misdelivered(r, req.serial)
  {
    var t := Apply(s, Deliver(res));
    ReachableSelf(Act, s);
    ReachableStep(Act, s, s, Deliver(res));
    assert t.mailbox == [res];
    r := TakeHead(t, c, req, resLen);
    ReachableTrans(Act, s, t, r);
  }

  lemma ServeAndTake(s: System, c: nat, req: Request, resLen: nat, other: Request) returns (r: System)
    requires WaitsFor(s, c, req, resLen) && s.mailbox == []
    requires other in s.requests && other.reqId == req.reqId && other.serial != req.serial
    ensures Reaches(s, r) && Misdelivered(r, req.serial)
  {
    var t := Apply(s, Serve(other, resLen, 0));
    ReachableSelf(Act, s);
    ReachableStep(Act, s, s, Serve(other, resLen, 0));
    r := DeliverAndTake(t, c, req, resLen, Echo(other, resLen, 0));
    ReachableTrans(Act, s, t, r);
  }

  /** The command sends its request and waits. */
  lemma ReachWaiting(s: System, c: nat, resLen: nat) returns (r: System, req: Request)
    requires CanBegin(s, c)
    ensures Reaches(BeginCmd(s, c, resLen), r) && WaitsFor(r, c, req, resLen)
    ensures req.serial == |s.issued| && req.reqId == s.clients[c].reqId
    ensures r.mailbox == s.mailbox && s.requests <= r.requests && r.responses == s.responses
  {
    var b := BeginCmd(s, c, resLen);
    ReachableSelf(Act, b);
    ReachableStep(Act, b, b, Send(c, true));
    r := Apply(b, Send(c, true));
    req := b.pcs[c].req;
  }

  lemma RiskRealised(s: System, c: nat, resLen: nat) returns (r: System)
    requires CanBegin(s, c) && Risk(s, s.clients[c].reqId, resLen)
    ensures Reaches(BeginCmd(s, c, resLen), r) && Misdelivered(r, |s.issued|)
  {
    var b, id := BeginCmd(s, c, resLen), s.clients[c].reqId;
    var w, req := ReachWaiting(s, c, resLen);
    var t := TakeLate(w, c, req, resLen);
    ReachableTrans(Act, b, w, t);
    var rest := DropLate(s.mailbox, id);
    if rest != [] {
      DropLateSuffix(s.mailbox, id);
      assert Genuine(s, rest[0]);
      r := TakeHead(t, c, req, resLen);
    } else if other :| other in s.requests && other.reqId == id {
      assert Known(s, other);
      r := ServeAndTake(t, c, req, resLen, other);
    } else {
      var res :| res in s.responses && Passes(res, id, resLen);
      assert Genuine(s, res);
      r := DeliverAndTake(t, c, req, resLen, res);
    }
    ReachableTrans(Act, b, t, r);
  }

  /** What is left of the mailbox was in it. */
  lemma {:induction false} DropLateSuffix(mailbox: seq<Response>, id: nat)
    ensures forall i :: 0 <= i < |DropLate(mailbox, id)| ==> DropLate(mailbox, id)[i] in mailbox
  {
    if mailbox != [] && mailbox[0].resId < id {
      DropLateSuffix(mailbox[1..], id);
    }
  }

  // ----- main result -----

  ghost predicate CanGoWrong(s: System, c: nat, resLen: nat)
    requires Shape(s) && c < CLIENT_MAX
  {
    exists steps :: Misdelivered(ApplyAll(BeginCmd(s, c, resLen), steps), |s.issued|)
  }

  /** In any state reached by any run in which a client can begin a command: some continuation makes
      this command accept a response that is not its answer, if and only if the mailbox and the
      channel hold what `Risk` says. */
  lemma MisdeliveryExactly(before: seq<Step>, c: nat, resLen: nat)
    requires var s := Run(before); c < CLIENT_MAX && s.clients[c].inUse && s.mutex.None?
    ensures var s := Run(before);
            CanGoWrong(s, c, resLen) <==> Risk(s, s.clients[c].reqId, resLen)
  {
    RunKeeps(before);
    var s := Run(before);
    assert s.pcs[c].Idle?;
    BeginKeeps(s, c, resLen);
    if Risk(s, s.clients[c].reqId, resLen) {
      var r := RiskRealised(s, c, resLen);
      var steps: seq<Step> :| After(Act, BeginCmd(s, c, resLen), steps) == r;
      assert Misdelivered(ApplyAll(BeginCmd(s, c, resLen), steps), |s.issued|);
    } else {
      SafeBegin(s, c, resLen);
      forall steps
        ensures !Misdelivered(ApplyAll(BeginCmd(s, c, resLen), steps), |s.issued|)
      {
        SafeAll(BeginCmd(s, c, resLen), |s.issued|, s.clients[c].reqId, resLen, steps);
      }
    }
  }
}
