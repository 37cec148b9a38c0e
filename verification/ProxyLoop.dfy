/** The messages of the remote clients' command protocol, and the loop in which a command waits for
    its response. */
module ProxyLoop {
  import opened Common

  /** `serial` numbers the requests of the whole run and `session` the opens; neither is
      on the wire, they only record which request a message belongs to. */
  datatype Request = Request(client: nat, session: nat, reqId: nat, serial: nat)

  /** A response echoes the client and id of its request. */
  datatype Response = Response(client: nat, session: nat, resId: nat, serial: nat,
                               len: nat, status: int)

  datatype Status = Sok | Etimeout | Efail | Eunexpected

  /** Result of one wait on the mailbox. A failed wait leaves the message buffer as it was,
      so the id then read from it is unrelated: `stale`. */
  datatype PendResult =
    | PTimeout(stale: nat)
    | PError(stale: nat)
    | PMsg(msg: Response)

  /** After one wait: go round again, or leave the loop. */
  datatype Loop = Again(status: Status) | Exit(status: Status, hdr: Option<Response>)

  datatype Outcome = Failed(status: Status) | Accepted(res: Response)

  function AfterPend(status: Status, reqId: nat, p: PendResult): Loop {
    match p
    case PTimeout(stale) => if stale < reqId then Again(Etimeout) else Exit(Etimeout, None)
    case PError(stale) => if stale < reqId then Again(Efail) else Exit(Efail, None)
    case PMsg(m) => if m.resId < reqId then Again(status) else Exit(status, Some(m))
  }

  /** The checks after the loop: length, then id. */
  function Conclude(reqId: nat, resLen: nat, status: Status, hdr: Option<Response>): Outcome {
    if status != Sok then Failed(status)
    else if hdr.None? || hdr.value.len != resLen then Failed(Eunexpected)
    else if hdr.value.resId > reqId then Failed(Eunexpected)
    else Accepted(hdr.value)
  }

  /** The whole loop on a list of wait results; None while it would still be waiting. */
  function Await(status: Status, reqId: nat, resLen: nat, pends: seq<PendResult>): Option<Outcome>
    decreases |pends|
  {
    if pends == [] then None
    else
      match AfterPend(status, reqId, pends[0])
      case Again(st) => Await(st, reqId, resLen, pends[1..])
      case Exit(st, hdr) => Some(Conclude(reqId, resLen, st, hdr))
  }

  /** The wait loop of a command, fed with the results of its waits. */
  method AwaitResponse(reqId: nat, resLen: nat, pends: seq<PendResult>) returns (out: Option<Outcome>)
    ensures out == Await(Sok, reqId, resLen, pends)
  {
    var status := Sok;
    var hdr: Option<Response> := None;
    var i := 0;
    var waiting := true;
    while waiting && i < |pends|
      invariant 0 <= i <= |pends|
      invariant waiting ==> Await(Sok, reqId, resLen, pends) == Await(status, reqId, resLen, pends[i..])
      invariant !waiting ==>
                  Await(Sok, reqId, resLen, pends) == Some(Conclude(reqId, resLen, status, hdr))
    {
      assert pends[i..][1..] == pends[i + 1..];
      var id;
      match pends[i] {
        case PTimeout(stale) => status, id, hdr := Etimeout, stale, None;
        case PError(stale) => status, id, hdr := Efail, stale, None;
        case PMsg(m) => id, hdr := m.resId, Some(m);
      }
      i := i + 1;
      waiting := id < reqId;
    }
    if waiting {
      out := None;
    } else {
      out := Some(Conclude(reqId, resLen, status, hdr));
    }
  }

  /** The waits before position `n` all delivered responses to earlier requests. */
  predicate OnlyLateBefore(reqId: nat, pends: seq<PendResult>, n: nat)
    requires n <= |pends|
  {
    forall i :: 0 <= i < n ==> pends[i].PMsg? && pends[i].msg.resId < reqId
  }

  /** What acceptance means: no wait failed, every response before the last was late, and the
      last one carries the request's id and the expected length. */
  ghost predicate AcceptedAt(reqId: nat, resLen: nat, pends: seq<PendResult>, n: nat, m: Response) {
    && n < |pends|
    && OnlyLateBefore(reqId, pends, n)
    && pends[n] == PMsg(m)
    && m.resId == reqId
    && m.len == resLen
  }

  lemma {:induction false} FailureSticks(status: Status, reqId: nat, resLen: nat, pends: seq<PendResult>)
    requires status != Sok
    ensures var o := Await(status, reqId, resLen, pends); o.Some? ==> o.value.Failed?
    decreases |pends|
  {
    if pends != [] {
      match AfterPend(status, reqId, pends[0])
      case Again(st) => FailureSticks(st, reqId, resLen, pends[1..]);
      case Exit(_, _) =>
    }
  }

  /** The id the loop looks at after a wait. */
  function IdSeen(p: PendResult): nat {
    match p
    case PTimeout(stale) => stale
    case PError(stale) => stale
    case PMsg(m) => m.resId
  }

  /** Wait `n` is the first that shows an id not below the request's. */
  predicate LeavesAt(reqId: nat, pends: seq<PendResult>, n: nat) {
    && n < |pends|
    && IdSeen(pends[n]) >= reqId
    && forall i :: 0 <= i < n ==> IdSeen(pends[i]) < reqId
  }

  /** Wait `k` is the latest failed one up to wait `n`. */
  predicate LatestFailure(pends: seq<PendResult>, n: nat, k: nat) {
    && k <= n < |pends|
    && !pends[k].PMsg?
    && forall i :: k < i <= n ==> pends[i].PMsg?
  }

  predicate NoFailure(pends: seq<PendResult>, n: nat) {
    n < |pends| && forall i :: 0 <= i <= n ==> pends[i].PMsg?
  }

  /** The loop is still waiting exactly while every wait showed an id below the request's, whether or
      not it failed. */
  lemma {:induction false} WaitsExactly(status: Status, reqId: nat, resLen: nat, pends: seq<PendResult>)
    ensures Await(status, reqId, resLen, pends).None?
       <==> forall i :: 0 <= i < |pends| ==> IdSeen(pends[i]) < reqId
    decreases |pends|
  {
    if pends != [] && IdSeen(pends[0]) < reqId {
      WaitsExactly(AfterPend(status, reqId, pends[0]).status, reqId, resLen, pends[1..]);
      assert forall i :: 1 <= i < |pends| ==> pends[i] == pends[1..][i - 1];
    }
  }

  lemma LeavesLater(reqId: nat, pends: seq<PendResult>, n: nat)
    requires LeavesAt(reqId, pends, n) && IdSeen(pends[0]) < reqId
    ensures n > 0 && LeavesAt(reqId, pends[1..], n - 1)
  {
    assert forall i :: 0 <= i < n ==> pends[1..][i] == pends[i + 1];
  }

  /** If no wait failed, the loop ends with the status it had; from a good status it accepts the message
      unless its length differs or its id is above the request's. */
  lemma {:induction false} EndsCleanly(status: Status, reqId: nat, resLen: nat, pends: seq<PendResult>, n: nat)
    requires LeavesAt(reqId, pends, n) && NoFailure(pends, n)
    ensures Await(status, reqId, resLen, pends)
         == Some(if status != Sok then Failed(status)
                 else if pends[n].msg.len != resLen || pends[n].msg.resId > reqId then Failed(Eunexpected)
                 else Accepted(pends[n].msg))
    decreases |pends|
  {
    if IdSeen(pends[0]) < reqId {
      LeavesLater(reqId, pends, n);
      assert forall i :: 0 <= i < n ==> pends[1..][i] == pends[i + 1];
      EndsCleanly(status, reqId, resLen, pends[1..], n - 1);
    }
  }

  /** If a wait failed, the command fails with the status of the latest failed one. */
  lemma {:induction false} EndsWithFailure(status: Status, reqId: nat, resLen: nat, pends: seq<PendResult>,
                                           n: nat, k: nat)
    requires LeavesAt(reqId, pends, n) && LatestFailure(pends, n, k)
    ensures Await(status, reqId, resLen, pends) == Some(Failed(if pends[k].PTimeout? then Etimeout else Efail))
    decreases |pends|
  {
    if IdSeen(pends[0]) < reqId {
      LeavesLater(reqId, pends, n);
      var rest, st := pends[1..], AfterPend(status, reqId, pends[0]).status;
      assert forall i :: 0 <= i < n ==> rest[i] == pends[i + 1];
      if k > 0 {
        EndsWithFailure(st, reqId, resLen, rest, n - 1, k - 1);
      } else {
        EndsCleanly(st, reqId, resLen, rest, n - 1);
      }
    }
  }

  /** How a command ends that leaves its loop at wait `n`. */
  ghost predicate EndsAt(o: Option<Outcome>, reqId: nat, resLen: nat, pends: seq<PendResult>, n: nat) {
    && LeavesAt(reqId, pends, n)
    && (NoFailure(pends, n) || exists k: nat :: LatestFailure(pends, n, k))
    && (forall k: nat :: LatestFailure(pends, n, k) ==>
          o == Some(Failed(if pends[k].PTimeout? then Etimeout else Efail)))
    && (NoFailure(pends, n) ==>
          var m := pends[n].msg;
          o == Some(if m.len != resLen || m.resId > reqId then Failed(Eunexpected) else Accepted(m)))
  }

  /** The outcome of a command for all results of its waits: it is still waiting exactly while every
      wait showed an id below the request's; else the first wait that did not decides, with the latest
      failure up to it. */
  lemma AwaitExactly(reqId: nat, resLen: nat, pends: seq<PendResult>)
    ensures var o := Await(Sok, reqId, resLen, pends);
            && (o.None? <==> forall i :: 0 <= i < |pends| ==> IdSeen(pends[i]) < reqId)
            && (o.Some? ==> exists n: nat :: EndsAt(o, reqId, resLen, pends, n))
  {
    WaitsExactly(Sok, reqId, resLen, pends);
    var o := Await(Sok, reqId, resLen, pends);
    if o.Some? {
      var i: nat :| i < |pends| && IdSeen(pends[i]) >= reqId;
      var n := FirstLeaving(reqId, pends, i);
      FindFailure(pends, n);
      if NoFailure(pends, n) {
        EndsCleanly(Sok, reqId, resLen, pends, n);
      }
      forall k: nat | LatestFailure(pends, n, k)
        ensures o == Some(Failed(if pends[k].PTimeout? then Etimeout else Efail))
      {
        EndsWithFailure(Sok, reqId, resLen, pends, n, k);
      }
      assert EndsAt(o, reqId, resLen, pends, n);
    }
  }

  lemma {:induction false} FirstLeaving(reqId: nat, pends: seq<PendResult>, i: nat) returns (n: nat)
    requires i < |pends| && IdSeen(pends[i]) >= reqId
    ensures LeavesAt(reqId, pends, n)
    decreases i
  {
    if j: nat :| j < i && IdSeen(pends[j]) >= reqId {
      n := FirstLeaving(reqId, pends, j);
    } else {
      n := i;
    }
  }

  lemma {:induction false} FindFailure(pends: seq<PendResult>, n: nat)
    requires n < |pends|
    ensures NoFailure(pends, n) || exists k: nat :: LatestFailure(pends, n, k)
  {
    if !pends[n].PMsg? {
      assert LatestFailure(pends, n, n);
    } else if n > 0 {
      FindFailure(pends, n - 1);
      if !NoFailure(pends, n - 1) {
        var k: nat :| LatestFailure(pends, n - 1, k);
        assert LatestFailure(pends, n, k);
      }
    }
  }

  lemma AcceptedLater(reqId: nat, resLen: nat, pends: seq<PendResult>, m: Response)
    requires pends != [] && pends[0].PMsg? && pends[0].msg.resId < reqId
    ensures (exists n :: AcceptedAt(reqId, resLen, pends, n, m))
       <==> (exists n :: AcceptedAt(reqId, resLen, pends[1..], n, m))
  {
    if n: nat :| AcceptedAt(reqId, resLen, pends, n, m) {
      assert n > 0;
      assert pends[1..][n - 1] == pends[n];
      assert AcceptedAt(reqId, resLen, pends[1..], n - 1, m);
    }
    if n: nat :| AcceptedAt(reqId, resLen, pends[1..], n, m) {
      forall i | 0 <= i < n + 1
        ensures pends[i].PMsg? && pends[i].msg.resId < reqId
      {
        if i > 0 { assert pends[i] == pends[1..][i - 1]; }
      }
      assert AcceptedAt(reqId, resLen, pends, n + 1, m);
    }
  }

  /** A command accepts a response exactly under that condition, whatever the waits return. */
  lemma {:induction false} AcceptsExactly(reqId: nat, resLen: nat, pends: seq<PendResult>, m: Response)
    ensures Await(Sok, reqId, resLen, pends) == Some(Accepted(m))
       <==> exists n :: AcceptedAt(reqId, resLen, pends, n, m)
    decreases |pends|
  {
    if pends != [] {
      match AfterPend(Sok, reqId, pends[0])
      case Again(st) =>
        if st == Sok {
          AcceptsExactly(reqId, resLen, pends[1..], m);
          AcceptedLater(reqId, resLen, pends, m);
        } else {
          FailureSticks(st, reqId, resLen, pends[1..]);
        }
      case Exit(_, _) =>
        if Await(Sok, reqId, resLen, pends) == Some(Accepted(m)) {
          assert AcceptedAt(reqId, resLen, pends, 0, m);
        }
    }
  }
}
