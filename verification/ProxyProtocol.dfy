/** The command request/response protocol of the Ethernet firmware's remote clients: several
    clients, one command mutex, one mailbox, one handler task, an unreliable channel that may
    reorder, and a server that answers each request at most once, echoing its id. */
module ProxyProtocol {
  import opened Common
  import opened ProxyLoop

  const CLIENT_MAX: nat := 2
  const MBX_COUNT: nat := 4

  datatype Client = Client(inUse: bool, session: nat, reqId: nat)

  datatype Pc =
    | Idle
    | Sending(req: Request, resLen: nat)
    | Waiting(req: Request, resLen: nat, status: Status)
    | Returning(req: Request, resLen: nat, status: Status, hdr: Option<Response>)

  datatype System = System(
    clients: seq<Client>,
    pcs: seq<Pc>,
    mutex: Option<nat>,
    requests: set<Request>,     // on the way to the server, or being served
    responses: set<Response>,   // on the way to the handler task
    mailbox: seq<Response>,
    issued: seq<Request>,
    opens: nat,
    answers: seq<(Request, Response)>)

  datatype Step =
    | Open
    | Close(c: nat)
    | Begin(c: nat, resLen: nat)        // lock the mutex, take the next request id
    | Send(c: nat, ok: bool)
    | Serve(req: Request, len: nat, status: int)
    | LoseRequest(req: Request)
    | Deliver(res: Response)            // handler task: receive and post
    | LoseResponse(res: Response)
    | PendMsg(c: nat)
    | PendTimeout(c: nat, stale: nat)
    | PendError(c: nat, stale: nat)
    | Return(c: nat)                    // final checks, unlock

  ghost predicate Shape(s: System) {
    |s.clients| == |s.pcs| == CLIENT_MAX
  }

  /** First free client object, if any. */
  function FirstFree(clients: seq<Client>, i: nat): (r: Option<nat>)
    requires i <= |clients|
    ensures r.Some? ==> i <= r.value < |clients| && !clients[r.value].inUse
                        && forall k :: i <= k < r.value ==> clients[k].inUse
    ensures r.None? ==> forall k :: i <= k < |clients| ==> clients[k].inUse
    decreases |clients| - i
  {
    if i == |clients| then None
    else if !clients[i].inUse then Some(i) else FirstFree(clients, i + 1)
  }

  /** The client objects of the proxy. `Client(false, 0, 0)` is the cleared object. */
  class ClientTable {
    const objects: array<Client>

    constructor ()
      ensures fresh(objects) && objects[..] == Start().clients
    {
      objects := new Client[CLIENT_MAX](_ => Client(false, 0, 0));
    }

    /** Takes the first free object and starts its request ids at zero. */
    method OpenHandle(session: nat) returns (handle: Option<nat>)
      modifies objects
      ensures handle == FirstFree(old(objects[..]), 0)
      ensures objects[..] == if handle.None? then old(objects[..])
                             else old(objects[..])[handle.value := Client(true, session, 0)]
    {
      var i := 0;
      while i < objects.Length && objects[i].inUse
        invariant 0 <= i <= objects.Length
        invariant FirstFree(objects[..], 0) == FirstFree(objects[..], i)
      {
        i := i + 1;
      }
      if i == objects.Length {
        return None;
      }
      objects[i] := Client(true, session, 0);
      return Some(i);
    }

    /** Clears the object, request id included. */
    method CloseHandle(handle: nat)
      requires handle < objects.Length
      modifies objects
      ensures objects[..] == old(objects[..])[handle := Client(false, 0, 0)]
    {
      objects[handle] := Client(false, 0, 0);
    }
  }

  function Start(): System {
    System([Client(false, 0, 0), Client(false, 0, 0)], [Idle, Idle], None, {}, {}, [], [], 0, [])
  }

  function OpenClient(s: System): (r: System)
    requires Shape(s)
    ensures Shape(r)
  {
    var c := FirstFree(s.clients, 0);
    if c.None? then s
    else s.(clients := s.clients[c.value := Client(true, s.opens, 0)], opens := s.opens + 1)
  }

  function BeginCmd(s: System, c: nat, resLen: nat): (r: System)
    requires Shape(s) && c < CLIENT_MAX
    ensures Shape(r)
  {
    var cl := s.clients[c];
    var req := Request(c, cl.session, cl.reqId, |s.issued|);
    s.(mutex := Some(c),
       clients := s.clients[c := cl.(reqId := cl.reqId + 1)],
       issued := s.issued + [req],
       pcs := s.pcs[c := Sending(req, resLen)])
  }

  function SendReq(s: System, c: nat, ok: bool): (r: System)
    requires Shape(s) && c < CLIENT_MAX && s.pcs[c].Sending?
    ensures Shape(r)
  {
    var Sending(req, resLen) := s.pcs[c];
    if ok then s.(requests := s.requests + {req}, pcs := s.pcs[c := Waiting(req, resLen, Sok)])
    else s.(pcs := s.pcs[c := Returning(req, resLen, Efail, None)])
  }

  function Echo(req: Request, len: nat, status: int): Response {
    Response(req.client, req.session, req.reqId, req.serial, len, status)
  }

  function Pended(s: System, c: nat, p: PendResult): (r: System)
    requires Shape(s) && c < CLIENT_MAX && s.pcs[c].Waiting?
    ensures Shape(r)
  {
    var Waiting(req, resLen, status) := s.pcs[c];
    var pc := match AfterPend(status, req.reqId, p)
              case Again(st) => Waiting(req, resLen, st)
              case Exit(st, hdr) => Returning(req, resLen, st, hdr);
    s.(pcs := s.pcs[c := pc], mailbox := if p.PMsg? && s.mailbox != [] then s.mailbox[1..] else s.mailbox)
  }

  function ReturnCmd(s: System, c: nat): (r: System)
    requires Shape(s) && c < CLIENT_MAX && s.pcs[c].Returning?
    ensures Shape(r)
  {
    var Returning(req, resLen, status, hdr) := s.pcs[c];
    var o := Conclude(req.reqId, resLen, status, hdr);
    s.(pcs := s.pcs[c := Idle], mutex := None,
       answers := if o.Accepted? then s.answers + [(req, o.res)] else s.answers)
  }

  /** One step; a step that is not enabled changes nothing. */
  function Apply(s: System, step: Step): (r: System)
    requires Shape(s)
    ensures Shape(r)
  {
    match step
    case Open => OpenClient(s)
    case Close(c) =>
      if c < CLIENT_MAX && s.clients[c].inUse && s.pcs[c].Idle? then
        s.(clients := s.clients[c := Client(false, 0, 0)])
      else s
    case Begin(c, resLen) =>
      if c < CLIENT_MAX && s.clients[c].inUse && s.pcs[c].Idle? && s.mutex.None?
      then BeginCmd(s, c, resLen) else s
    case Send(c, ok) =>
      if c < CLIENT_MAX && s.pcs[c].Sending? then SendReq(s, c, ok) else s
    case Serve(req, len, status) =>
      if req in s.requests then
        s.(requests := s.requests - {req}, responses := s.responses + {Echo(req, len, status)})
      else s
    case LoseRequest(req) => s.(requests := s.requests - {req})
    case Deliver(res) =>
      if res in s.responses && |s.mailbox| < MBX_COUNT then
        s.(responses := s.responses - {res}, mailbox := s.mailbox + [res])
      else s
    case LoseResponse(res) => s.(responses := s.responses - {res})
    case PendMsg(c) =>
      if c < CLIENT_MAX && s.pcs[c].Waiting? && s.mailbox != [] then Pended(s, c, PMsg(s.mailbox[0]))
      else s
    case PendTimeout(c, stale) =>
      if c < CLIENT_MAX && s.pcs[c].Waiting? then Pended(s, c, PTimeout(stale)) else s
    case PendError(c, stale) =>
      if c < CLIENT_MAX && s.pcs[c].Waiting? then Pended(s, c, PError(stale)) else s
    case Return(c) =>
      if c < CLIENT_MAX && s.pcs[c].Returning? then ReturnCmd(s, c) else s
  }

  /** The state after `steps`. */
  function Run(steps: seq<Step>): (s: System)
    ensures Shape(s)
  {
    if steps == [] then Start() else Apply(Run(steps[..|steps| - 1]), steps[|steps| - 1])
  }
}
