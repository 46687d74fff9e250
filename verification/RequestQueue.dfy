/**
 9passthrough/requests.go: the queue of pending path requests. The class below follows the source
 (request objects, each with a channel of capacity one); `QueueState` and the functions on it are
 what its methods are proved against.
 */
module RequestQueue {
  import opened Wrappers

  datatype Status = Pending | Approved | Denied

  datatype RequestResult = RequestResult(approved: bool, reason: string)

  /** One request with its channel: `buffer` is what was sent and not received, `closed` whether it is closed. */
  datatype Request = Request(path: string, readOnly: bool, vmPid: int, status: Status, denialReason: string,
                             buffer: seq<RequestResult>, closed: bool)

  datatype QueueState = QueueState(sequence: nat, requests: map<string, Request>)

  datatype Resolution = Resolved | NotFound | AlreadyResolved

  // ---------------------------------------------------------------- printed numbers

  function Digit(d: nat): char
    requires d < 10
  {
    "0123456789"[d]
  }

  /** fmt.Sprintf("%d", n) */
  function Decimal(n: nat): string {
    if n < 10 then [Digit(n)] else Decimal(n / 10) + [Digit(n % 10)]
  }

  function Value(s: string): int {
    if s == "" then 0 else 10 * Value(s[..|s| - 1]) + (s[|s| - 1] as int - '0' as int)
  }

  lemma {:induction false} DecimalValue(n: nat)
    ensures Value(Decimal(n)) == n
  {
    if n < 10 {
      assert Decimal(n)[..0] == "";
    } else {
      DecimalValue(n / 10);
      assert Decimal(n)[..|Decimal(n)| - 1] == Decimal(n / 10);
    }
  }

  /** Two numbers never print the same. */
  lemma {:induction false} DecimalInjective(m: nat, n: nat)
    requires Decimal(m) == Decimal(n)
    ensures m == n
  {
    DecimalValue(m);
    DecimalValue(n);
  }

  /** Digits, most significant first, without leading zeros. */
  lemma {:induction false} DecimalDigits(n: nat)
    ensures Decimal(n) != "" && forall i :: 0 <= i < |Decimal(n)| ==> '0' <= Decimal(n)[i] <= '9'
    ensures Decimal(n)[0] == '0' <==> n == 0
    ensures n >= 10 ==> Decimal(n) == Decimal(n / 10) + Decimal(n % 10)
    ensures n < 10 ==> Decimal(n) == [('0' as int + n) as char]
  {
    if n >= 10 {
      DecimalDigits(n / 10);
    }
  }

  // ---------------------------------------------------------------- the queue's transitions

  function AfterCreate(q: QueueState, path: string, readOnly: bool, vmPid: int): QueueState {
    QueueState(q.sequence + 1,
               q.requests[Decimal(q.sequence + 1) := Request(path, readOnly, vmPid, Pending, "", [], false)])
  }

  function ResolutionOf(q: QueueState, id: string): Resolution {
    if id !in q.requests then NotFound else if q.requests[id].status != Pending then AlreadyResolved else Resolved
  }

  /** A pending request leaves the pending state together with the send of its result. */
  function AfterResolve(q: QueueState, id: string, status: Status, reason: string): QueueState {
    if ResolutionOf(q, id) != Resolved then q
    else
      var r := q.requests[id];
      var sent := RequestResult(status == Approved, reason);
      q.(requests := q.requests[id := r.(status := status, denialReason := reason, buffer := r.buffer + [sent])])
  }

  function ClosedRequest(r: Request): Request {
    if r.status == Pending then r.(status := Denied, denialReason := "Server shutdown", closed := true) else r
  }

  function AfterCloseAll(q: QueueState): QueueState {
    q.(requests := map id | id in q.requests :: ClosedRequest(q.requests[id]))
  }

  predicate Ready(r: Request) {
    r.buffer != [] || r.closed
  }

  /** What a receive yields: the oldest sent value, or the zero value of a closed channel. */
  function Received(r: Request): RequestResult
    requires Ready(r)
  {
    if r.buffer != [] then r.buffer[0] else RequestResult(false, "")
  }

  function Tail<T>(s: seq<T>): seq<T> {
    if s == [] then [] else s[1..]
  }

  function AfterReceive(q: QueueState, id: string): QueueState
    requires id in q.requests && Ready(q.requests[id])
  {
    var r := q.requests[id];
    q.(requests := q.requests[id := r.(buffer := Tail(r.buffer))])
  }

  // ---------------------------------------------------------------- the invariant

  ghost predicate Issued(q: QueueState, id: string) {
    exists n: nat :: 0 < n <= q.sequence && Decimal(n) == id
  }

  /** The channel can take a send without blocking and is not closed exactly while the request is pending. */
  ghost predicate ChannelOk(r: Request) {
    match r.status
    case Pending => r.buffer == [] && !r.closed && r.denialReason == ""
    case Approved => !r.closed && (r.buffer == [] || r.buffer == [RequestResult(true, "")])
    case Denied => r.buffer == [] || (!r.closed && r.buffer == [RequestResult(false, r.denialReason)])
  }

  ghost predicate QueueOk(q: QueueState) {
    forall id {:trigger id in q.requests} :: id in q.requests ==> Issued(q, id) && ChannelOk(q.requests[id])
  }

  /** The next number is not in use, so no request is ever overwritten. */
  lemma {:induction false} FreshId(q: QueueState)
    requires QueueOk(q)
    ensures Decimal(q.sequence + 1) !in q.requests
  {
    if Decimal(q.sequence + 1) in q.requests {
      var n: nat :| 0 < n <= q.sequence && Decimal(n) == Decimal(q.sequence + 1);
      DecimalInjective(n, q.sequence + 1);
    }
  }

  lemma {:induction false} QueueOkKept(q: QueueState, path: string, readOnly: bool, vmPid: int,
                                       id: string, reason: string)
    requires QueueOk(q)
    ensures QueueOk(AfterCreate(q, path, readOnly, vmPid))
    ensures QueueOk(AfterResolve(q, id, Approved, ""))
    ensures QueueOk(AfterResolve(q, id, Denied, reason))
    ensures QueueOk(AfterCloseAll(q))
    ensures id in q.requests && Ready(q.requests[id]) ==> QueueOk(AfterReceive(q, id))
  {
    var c := AfterCreate(q, path, readOnly, vmPid);
    forall i | i in c.requests
      ensures Issued(c, i)
    {
      assert i == Decimal(c.sequence) || Issued(q, i);
    }
  }

  // ---------------------------------------------------------------- the objects

  /** make(chan RequestResult, 1) */
  class ResultChan {
    var buffer: seq<RequestResult>
    var closed: bool

    constructor ()
      ensures buffer == [] && !closed
    {
      buffer, closed := [], false;
    }

    /** A send on a full channel would block, one on a closed channel would panic. */
    method Send(r: RequestResult)
      requires !closed && |buffer| < 1
      modifies this
      ensures buffer == old(buffer) + [r] && closed == old(closed)
    {
      buffer := buffer + [r];
    }

    /** Closing twice would panic. */
    method Close()
      requires !closed
      modifies this
      ensures closed && buffer == old(buffer)
    {
      closed := true;
    }
  }

  class PathRequest {
    const id: string
    const path: string
    const readOnly: bool
    const vmPid: int
    var status: Status
    var denialReason: string
    const resultChan: ResultChan

    constructor (id: string, path: string, readOnly: bool, vmPid: int)
      ensures this.id == id && fresh(resultChan)
      ensures Snapshot() == Request(path, readOnly, vmPid, Pending, "", [], false)
    {
      this.id, this.path, this.readOnly, this.vmPid := id, path, readOnly, vmPid;
      status, denialReason := Pending, "";
      resultChan := new ResultChan();
    }

    function Snapshot(): Request
      reads this, resultChan
    {
      Request(path, readOnly, vmPid, status, denialReason, resultChan.buffer, resultChan.closed)
    }

    /**
     Returns once the channel is ready or the context is cancelled; if both, either can win. A cancelled
     wait leaves the result in the channel.
     */
    method Wait(cancelled: bool) returns (result: RequestResult)
      requires cancelled || Ready(Snapshot())
      modifies resultChan
      ensures
        || (Ready(old(Snapshot())) && result == Received(old(Snapshot())) &&
            Snapshot() == old(Snapshot()).(buffer := Tail(old(resultChan.buffer))))
        || (cancelled && result == RequestResult(false, "Request cancelled") && Snapshot() == old(Snapshot()))
      ensures
        || (old(resultChan.buffer) != [] && [result] + resultChan.buffer == old(resultChan.buffer))
        || (old(resultChan.buffer) == resultChan.buffer == [] && resultChan.closed &&
            result == RequestResult(false, ""))
        || (cancelled && resultChan.buffer == old(resultChan.buffer) &&
            result == RequestResult(false, "Request cancelled"))
      ensures resultChan.closed == old(resultChan.closed)
    {
      var receives: bool := *;
      if !Ready(Snapshot()) || (cancelled && !receives) {
        return RequestResult(false, "Request cancelled");
      }
      if resultChan.buffer != [] {
        result := resultChan.buffer[0];
        resultChan.buffer := Tail(resultChan.buffer);
      } else {
        result := RequestResult(false, "");
      }
    }
  }

  /** What Approve and Deny do with a pending request: the status and the send belong together. */
  method Resolve(req: PathRequest, status: Status, reason: string)
    requires ChannelOk(req.Snapshot()) && req.status == Pending
    modifies req, req.resultChan
    ensures req.Snapshot() == old(req.Snapshot()).(status := status, denialReason := reason,
              buffer := old(req.resultChan.buffer) + [RequestResult(status == Approved, reason)])
  {
    req.status := status;
    req.denialReason := reason;
    req.resultChan.Send(RequestResult(status == Approved, reason));
  }

  /** What CloseAll does with one request. */
  method CloseIfPending(req: PathRequest)
    requires ChannelOk(req.Snapshot())
    modifies req, req.resultChan
    ensures req.Snapshot() == ClosedRequest(old(req.Snapshot()))
  {
    if req.status == Pending {
      req.status := Denied;
      req.denialReason := "Server shutdown";
      req.resultChan.Close();
    }
  }

  class RequestQueue {
    var requests: map<string, PathRequest>
    var sequence: nat

    ghost function Chans(): set<ResultChan>
      reads this`requests
    {
      set id | id in requests :: requests[id].resultChan
    }

    /** Every id has a request of its own, and every request a channel of its own. */
    ghost predicate Separate()
      reads this`requests
    {
      && (forall id :: id in requests ==> requests[id].id == id)
      && (forall i, j :: i in requests && j in requests && i != j ==> requests[i].resultChan != requests[j].resultChan)
    }

    ghost function Snapshots(): map<string, Request>
      reads this`requests, requests.Values, Chans()
    {
      map id | id in requests :: requests[id].Snapshot()
    }

    ghost function View(): QueueState
      reads this, requests.Values, Chans()
    {
      QueueState(sequence, Snapshots())
    }

    ghost predicate Valid()
      reads this, requests.Values, Chans()
    {
      Separate() && QueueOk(View())
    }

    constructor ()
      ensures Valid() && View() == QueueState(0, map[]) && fresh(requests.Values) && fresh(Chans())
    {
      requests, sequence := map[], 0;
    }

    method GenerateId() returns (id: string)
      modifies this`sequence
      ensures sequence == old(sequence) + 1 && id == Decimal(sequence)
    {
      sequence := sequence + 1;
      id := Decimal(sequence);
    }

    method Create(path: string, readOnly: bool, vmPid: int) returns (req: PathRequest)
      requires Valid()
      modifies this
      ensures Valid() && View() == AfterCreate(old(View()), path, readOnly, vmPid)
      ensures fresh(req) && fresh(req.resultChan) && requests == old(requests)[req.id := req]
      ensures req.id !in old(requests) && req.id == Decimal(old(sequence) + 1)
      ensures req.path == path && req.readOnly == readOnly && req.vmPid == vmPid && req.status == Pending
      ensures req.denialReason == "" && req.resultChan.buffer == [] && !req.resultChan.closed
    {
      ghost var before := View();
      QueueOkKept(before, path, readOnly, vmPid, "", "");
      FreshId(before);
      var id := GenerateId();
      assert Snapshots() == before.requests;
      req := Add(id, path, readOnly, vmPid);
      assert View() == AfterCreate(before, path, readOnly, vmPid);
    }

    /** Enters a new request; the others keep theirs. */
    method Add(id: string, path: string, readOnly: bool, vmPid: int) returns (req: PathRequest)
      requires Separate() && id !in requests
      modifies this`requests
      ensures Separate() && fresh(req) && fresh(req.resultChan) && req.id == id && requests == old(requests)[id := req]
      ensures req.Snapshot() == Request(path, readOnly, vmPid, Pending, "", [], false)
      ensures Snapshots() == old(Snapshots())[id := Request(path, readOnly, vmPid, Pending, "", [], false)]
    {
      req := new PathRequest(id, path, readOnly, vmPid);
      requests := requests[req.id := req];
      forall i | i in old(requests)
        ensures i in requests && requests[i] == old(requests)[i]
        ensures requests[i].Snapshot() == old(requests[i].Snapshot())
      {
      }
    }

    method Approve(id: string) returns (r: Resolution)
      requires Valid()
      modifies requests.Values, Chans()
      ensures Valid() && r == ResolutionOf(old(View()), id)
      ensures View() == AfterResolve(old(View()), id, Approved, "")
      ensures r == NotFound <==> id !in requests
      ensures r == AlreadyResolved <==> id in requests && old(requests[id].status) != Pending
      ensures r == Resolved ==>
                && requests[id].status == Approved && requests[id].denialReason == ""
                && requests[id].resultChan.buffer == [RequestResult(true, "")]
      ensures forall i :: i in requests && (i != id || r != Resolved) ==>
                requests[i].Snapshot() == old(requests[i].Snapshot())
    {
      QueueOkKept(View(), "", false, 0, id, "");
      if id !in requests {
        return NotFound;
      }
      var req := requests[id];
      ghost var before := View();
      assert id in before.requests && before.requests[id] == req.Snapshot();
      if req.status != Pending {
        return AlreadyResolved;
      }
      Resolve(req, Approved, "");
      SameView(AfterResolve(before, id, Approved, ""));
      r := Resolved;
    }

    method Deny(id: string, reason: string) returns (r: Resolution)
      requires Valid()
      modifies requests.Values, Chans()
      ensures Valid() && r == ResolutionOf(old(View()), id)
      ensures View() == AfterResolve(old(View()), id, Denied, reason)
      ensures r == NotFound <==> id !in requests
      ensures r == AlreadyResolved <==> id in requests && old(requests[id].status) != Pending
      ensures r == Resolved ==>
                && requests[id].status == Denied && requests[id].denialReason == reason
                && requests[id].resultChan.buffer == [RequestResult(false, reason)]
      ensures forall i :: i in requests && (i != id || r != Resolved) ==>
                requests[i].Snapshot() == old(requests[i].Snapshot())
    {
      QueueOkKept(View(), "", false, 0, id, reason);
      if id !in requests {
        return NotFound;
      }
      var req := requests[id];
      ghost var before := View();
      assert id in before.requests && before.requests[id] == req.Snapshot();
      if req.status != Pending {
        return AlreadyResolved;
      }
      Resolve(req, Denied, reason);
      SameView(AfterResolve(before, id, Denied, reason));
      r := Resolved;
    }

    method CloseAll()
      requires Valid()
      modifies requests.Values, Chans()
      ensures Valid() && View() == AfterCloseAll(old(View()))
      ensures forall id :: id in requests && old(requests[id].status) == Pending ==>
                && requests[id].status == Denied && requests[id].denialReason == "Server shutdown"
                && requests[id].resultChan.closed && requests[id].resultChan.buffer == []
      ensures forall id :: id in requests && old(requests[id].status) != Pending ==>
                requests[id].Snapshot() == old(requests[id].Snapshot())
    {
      ghost var before := View();
      CloseEach(before);
      QueueOkKept(before, "", false, 0, "", "");
      SameView(AfterCloseAll(before));
    }

    /** The requests not in `todo` are closed, the others as before. */
    ghost predicate ClosedBut(before: QueueState, todo: set<string>)
      reads this`requests, requests.Values, Chans()
    {
      && Separate() && requests.Keys == before.requests.Keys
      && forall id :: id in requests ==>
           requests[id].Snapshot() == if id in todo then before.requests[id] else ClosedRequest(before.requests[id])
    }

    /** CloseAll's loop. */
    method CloseEach(ghost before: QueueState)
      requires QueueOk(before) && ClosedBut(before, requests.Keys)
      modifies requests.Values, Chans()
      ensures ClosedBut(before, {})
    {
      var todo := requests.Keys;
      while todo != {}
        invariant todo <= requests.Keys && ClosedBut(before, todo)
        decreases todo
      {
        var id :| id in todo;
        CloseOne(before, todo, id);
        todo := todo - {id};
      }
    }

    /** One round of the loop. */
    method CloseOne(ghost before: QueueState, ghost todo: set<string>, id: string)
      requires QueueOk(before) && ClosedBut(before, todo) && id in requests && id in todo
      modifies requests[id], requests[id].resultChan
      ensures ClosedBut(before, todo - {id})
    {
      assert id in before.requests && ChannelOk(before.requests[id]);
      CloseIfPending(requests[id]);
      forall i | i in requests && i != id
        ensures requests[i].Snapshot() == old(requests[i].Snapshot())
      {
        assert requests[i].id != requests[id].id && requests[i].resultChan != requests[id].resultChan;
      }
    }

    /** A receive on the channel of a request that is still in the map. */
    method Await(id: string) returns (result: RequestResult)
      requires Valid() && id in requests && Ready(requests[id].Snapshot())
      modifies requests[id].resultChan
      ensures Valid() && View() == AfterReceive(old(View()), id) && result == Received(old(View()).requests[id])
      ensures if old(requests[id].resultChan.buffer) == [] then
                requests[id].resultChan.buffer == [] && result == RequestResult(false, "")
              else
                [result] + requests[id].resultChan.buffer == old(requests[id].resultChan.buffer)
      ensures forall i :: i in requests && i != id ==> requests[i].Snapshot() == old(requests[i].Snapshot())
    {
      ghost var before := View();
      QueueOkKept(before, "", false, 0, id, "");
      assert before.requests[id] == requests[id].Snapshot();
      result := requests[id].Wait(false);
      forall i | i in requests && i != id
        ensures requests[i].Snapshot() == before.requests[i]
      {
        assert requests[i].resultChan != requests[id].resultChan;
      }
      assert requests[id].Snapshot() == AfterReceive(before, id).requests[id];
      SameView(AfterReceive(before, id));
    }

    lemma SameView(q: QueueState)
      requires sequence == q.sequence && requests.Keys == q.requests.Keys
      requires forall i :: i in requests ==> requests[i].Snapshot() == q.requests[i]
      ensures View() == q
    {
    }

    /** The ids of the pending requests. */
    method List() returns (pending: set<string>)
      ensures forall id :: id in pending <==> id in requests && requests[id].status == Pending
    {
      pending := set id | id in requests && requests[id].status == Pending;
    }
  }
}
