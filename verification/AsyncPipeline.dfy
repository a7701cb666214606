/** The asynchronous insert pipeline of EtDBConnection as atomic steps of one API caller,
    the receiver thread and a FIFO server.  Every critical section is one action; actions
    of the three parties interleave freely. */
module AsyncPipeline {
  import opened Bytes
  import opened Endian

  datatype Request = AsyncReq(id: nat) | SyncReq(tag: nat)

  type Word = w: Buffer | |w| == 4 witness [0, 0, 0, 0]

  /** The bytes of a response the receiver looks at: the code in the head, and the content. */
  datatype Body = Body(rtCode: Word, content: Buffer)

  /** What an async response becomes in _asyncResults: the counters only count on success. */
  datatype AsyncResult = AsyncResult(code: int, submitted: int, affected: int, errors: int)

  const SUBMIT_RSP := 12          // SSubmitRspMsg without its error entries

  function ToResult(b: Body): AsyncResult {
    var code := IntAt(b.rtCode, 0, 4);
    if code == 0 && |b.content| >= SUBMIT_RSP
    then AsyncResult(code, IntAt(b.content, 0, 4), IntAt(b.content, 4, 4), IntAt(b.content, 8, 4))
    else AsyncResult(code, 0, 0, 0)
  }

  /** The server's response to a submit: code, rows submitted, rows inserted, rows failed, and
      whatever follows, in network order. */
  ghost predicate SubmitRsp(b: Body, code: int, submitted: int, affected: int, errors: int, rest: Buffer) {
    InSigned(code, 4) && InSigned(submitted, 4) && InSigned(affected, 4) && InSigned(errors, 4) &&
    b.rtCode == ToBE(ToUnsigned(code, 4), 4) &&
    b.content == ToBE(ToUnsigned(submitted, 4), 4) + ToBE(ToUnsigned(affected, 4), 4) +
                 ToBE(ToUnsigned(errors, 4), 4) + rest
  }

  /** The result says what the response says, field by field; a failure, or a response too
      short for the counters, counts nothing. */
  ghost predicate Reports(r: AsyncResult, b: Body) {
    (forall code, submitted, affected, errors, rest :: SubmitRsp(b, code, submitted, affected, errors, rest) ==>
       r.code == code && (code == 0 ==> r.submitted == submitted && r.affected == affected && r.errors == errors)) &&
    (forall code :: InSigned(code, 4) && b.rtCode == ToBE(ToUnsigned(code, 4), 4) ==> r.code == code) &&
    (r.code != 0 || |b.content| < 12 ==> r.submitted == 0 && r.affected == 0 && r.errors == 0)
  }

  lemma {:induction false} ResultReports(b: Body)
    ensures Reports(ToResult(b), b)
  {
    hide ToBE, IntAt, InSigned;
    forall code, submitted, affected, errors, rest | SubmitRsp(b, code, submitted, affected, errors, rest)
      ensures ToResult(b).code == code
      ensures code == 0 ==> ToResult(b) == AsyncResult(0, submitted, affected, errors)
    {
      FieldsRead(b, code, submitted, affected, errors, rest);
    }
    forall code | InSigned(code, 4) && b.rtCode == ToBE(ToUnsigned(code, 4), 4) ensures IntAt(b.rtCode, 0, 4) == code {
      AtPrefix(b.rtCode, [], b.rtCode);
      IntReadsBack(b.rtCode, 0, code, 4);
    }
  }

  lemma {:induction false} FieldsRead(b: Body, code: int, submitted: int, affected: int, errors: int, rest: Buffer)
    requires SubmitRsp(b, code, submitted, affected, errors, rest)
    ensures |b.content| >= 12 && IntAt(b.rtCode, 0, 4) == code
    ensures IntAt(b.content, 0, 4) == submitted && IntAt(b.content, 4, 4) == affected
    ensures IntAt(b.content, 8, 4) == errors
  {
    hide ToBE, IntAt, InSigned;
    var n, a, e := ToBE(ToUnsigned(submitted, 4), 4), ToBE(ToUnsigned(affected, 4), 4), ToBE(ToUnsigned(errors, 4), 4);
    AtPrefix(b.rtCode, [], b.rtCode);
    IntReadsBack(b.rtCode, 0, code, 4);
    AtPrefix(b.content, [], n);
    AtPrefix(b.content, n, a);
    AtPrefix(b.content, n + a, e);
    IntReadsBack(b.content, 0, submitted, 4);
    IntReadsBack(b.content, 4, affected, 4);
    IntReadsBack(b.content, 8, errors, 4);
  }

  /** A response on the wire; `echo` is the batch id it carries, 0 when absent. */
  datatype Response = Response(req: Request, echo: nat)

  /** Where the API caller stands between two of its atomic steps. */
  datatype Pc =
    | Idle
    | Admitted               // past the backpressure wait
    | Numbered(id: nat)      // batch id taken
    | Counted(id: nat)       // _sentAsyncCount incremented
    | Drained                // sync call: no async response outstanding
    | Armed(tag: nat)        // _syncWaiting set
    | Waiting(tag: nat)      // request sent, waiting for _syncReady
    | Direct(tag: nat, ahead: nat)  // request sent, no receiver thread; `ahead` responses come before its own

  datatype Receiver = NotStarted | Polling | InHand(r: Response) | Stopping | Stopped

  /** What a synchronous call gets: the response to a request, nothing, or bytes that start
      inside a response somebody else has read in part. */
  datatype SyncSlot = Empty | Answer(req: Request) | Lost | Garbled

  /** How the response of a synchronous call arrives. */
  datatype Route = ViaReceiver | OnSocket(ahead: nat)

  datatype Finished = Finished(tag: nat, slot: SyncSlot, route: Route)

  datatype State = State(
    nextBatchId: nat, sent: nat, received: nat, consumed: nat, cap: nat,
    results: map<nat, AsyncResult>,
    syncWaiting: bool, syncSlot: SyncSlot,       // _syncReady is syncSlot != Empty
    pc: Pc, receiver: Receiver, nextTag: nat,
    requests: seq<Request>, responses: seq<Response>,
    torn: bool,                                  // the oldest response has been read in part
    failed: set<nat>,                            // batch ids whose send failed
    owed: nat,                                   // sync calls that returned without taking a response
    owedAtStart: nat,                            // `owed` when the receiver was started
    lastSync: Option<Finished>                   // what the last finished sync call returned
  )

  /** The server: its answer to every request, and whether it echoes batch ids. */
  datatype Server = Server(answer: Request -> Body, echoes: bool)

  function Init(cap: nat): State {
    State(1, 0, 0, 0, cap, map[], false, Empty, Idle, NotStarted, 0, [], [], false, {}, 0, 0, None)
  }

  predicate Running(s: State) { s.receiver != NotStarted && s.receiver != Stopped }

  function Pending(s: State): int { s.received - s.consumed }

  datatype Action =
    | StartReceiver
    | Admit | TakeId | CountSent | SendBatch(delivered: bool)
    | Consume(id: nat) | SetMaxPending(n: int)
    | Drain | Arm | SendSync(delivered: bool) | ReturnSync
    | SendDirect | ReceiveDirect | FailDirect(tears: bool)
    | Serve(echo: nat)
    | Read | ReadTorn(r: Response) | Dispatch | Stop(tears: bool) | Exit

  /** The key a response is stored under: the echoed id, or else submission order. */
  function Key(r: Response, received: nat): nat { if r.echo != 0 then r.echo else received + 1 }

  /** One atomic step; None when the action is not enabled. */
  function Step(v: Server, s: State, a: Action): Option<State>
  {
    match a
    // ensureAsyncRecv
    case StartReceiver =>
      if s.pc == Idle && s.receiver == NotStarted then Some(s.(receiver := Polling, owedAtStart := s.owed)) else None
    // executeInsertAsync
    case Admit =>
      if s.pc == Idle && Running(s) && Pending(s) < s.cap then Some(s.(pc := Admitted)) else None
    case TakeId =>
      if s.pc == Admitted then Some(s.(pc := Numbered(s.nextBatchId), nextBatchId := s.nextBatchId + 1)) else None
    case CountSent =>
      if s.pc.Numbered? then Some(s.(pc := Counted(s.pc.id), sent := s.sent + 1)) else None
    case SendBatch(delivered) =>
      if !s.pc.Counted? then None
      else if delivered then Some(s.(pc := Idle, requests := s.requests + [AsyncReq(s.pc.id)]))
      else if s.sent == 0 then None
      else Some(s.(pc := Idle, sent := s.sent - 1, failed := s.failed + {s.pc.id}))
    // getAsyncResult, setMaxAsyncPending
    case Consume(id) =>
      if s.pc == Idle && id in s.results
      then Some(s.(results := s.results - {id}, consumed := s.consumed + 1)) else None
    case SetMaxPending(n) =>
      if s.pc == Idle then Some(s.(cap := if n > 0 then n else 512)) else None
    // sendRecv with the receiver running
    case Drain =>
      if s.pc == Idle && Running(s) && s.received >= s.sent then Some(s.(pc := Drained)) else None
    case Arm =>
      if s.pc != Drained then None
      else if !Running(s) then Some(s.(pc := Idle))
      else Some(s.(pc := Armed(s.nextTag), nextTag := s.nextTag + 1, syncWaiting := true, syncSlot := Empty))
    case SendSync(delivered) =>
      if !s.pc.Armed? then None
      else if delivered then Some(s.(pc := Waiting(s.pc.tag), requests := s.requests + [SyncReq(s.pc.tag)]))
      else Some(s.(pc := Idle, syncWaiting := false))
    case ReturnSync =>
      if !s.pc.Waiting? then None
      else if s.syncSlot == Empty && Running(s) then None
      else
        var slot := if s.syncSlot == Empty then Lost else s.syncSlot;
        Some(s.(pc := Idle, syncWaiting := false, owed := s.owed + if slot == Lost then 1 else 0,
                lastSync := Some(Finished(s.pc.tag, slot, ViaReceiver))))
    // sendRecv without a receiver thread: before it was started, or after it has stopped
    case SendDirect =>
      if s.pc == Idle && !Running(s)
      then Some(s.(pc := Direct(s.nextTag, |Flight(s)|), nextTag := s.nextTag + 1,
                   requests := s.requests + [SyncReq(s.nextTag)]))
      else None
    case ReceiveDirect =>
      if !s.pc.Direct? || s.responses == [] then None
      else if s.torn
      then Some(s.(pc := Idle, owed := s.owed + 1,
                   lastSync := Some(Finished(s.pc.tag, Garbled, OnSocket(s.pc.ahead)))))
      else Some(s.(pc := Idle, responses := s.responses[1..],
                   lastSync := Some(Finished(s.pc.tag, Answer(s.responses[0].req), OnSocket(s.pc.ahead)))))
    case FailDirect(tears) =>
      if !s.pc.Direct? || (tears && s.responses == []) then None
      else Some(s.(pc := Idle, torn := s.torn || tears, owed := s.owed + 1,
                   lastSync := Some(Finished(s.pc.tag, Lost, OnSocket(s.pc.ahead)))))
    // the server takes the oldest request and answers it
    case Serve(echo) =>
      if s.requests == [] then None
      else if !EchoAllowed(v, s.requests[0], echo) then None
      else Some(s.(requests := s.requests[1..], responses := s.responses + [Response(s.requests[0], echo)]))
    // recvLoop
    case Read =>
      if s.receiver == Polling && s.responses != [] && !s.torn
      then Some(s.(receiver := InHand(s.responses[0]), responses := s.responses[1..])) else None
    case ReadTorn(r) =>
      if s.receiver == Polling && s.torn then Some(s.(receiver := InHand(r))) else None
    case Dispatch =>
      if !s.receiver.InHand? then None
      else if s.syncWaiting then Some(s.(receiver := Polling, syncSlot := Answer(s.receiver.r.req)))
      else
        var r := s.receiver.r;
        Some(s.(receiver := Polling, received := s.received + 1,
                results := s.results[Key(r, s.received) := ToResult(v.answer(r.req))]))
    case Stop(tears) =>
      if s.receiver != Polling || (tears && s.responses == []) then None
      else Some(s.(receiver := Stopping, torn := s.torn || tears,
                   syncSlot := if s.syncWaiting && s.syncSlot == Empty then Lost else s.syncSlot))
    case Exit =>
      if s.receiver == Stopping then Some(s.(receiver := Stopped)) else None
  }

  /** An echoing server returns the batch id; another one may also leave it out. */
  predicate EchoAllowed(v: Server, req: Request, echo: nat) {
    match req
    case AsyncReq(id) => echo == id || (!v.echoes && echo == 0)
    case SyncReq(_) => echo == 0
  }

  function Run(v: Server, s: State, actions: seq<Action>): Option<State>
  {
    if actions == [] then Some(s)
    else
      var before := Run(v, s, actions[..|actions| - 1]);
      if before.None? then None else Step(v, before.value, actions[|actions| - 1])
  }

  // ---------------------------------------------------------------- invariants

  /** Requests whose response has not been taken yet, oldest first. */
  function Flight(s: State): seq<Request> {
    (if s.receiver.InHand? then [s.receiver.r.req] else []) + OnWire(s)
  }

  function OnWire(s: State): seq<Request> { Answered(s.responses) + s.requests }

  function Answered(rs: seq<Response>): (qs: seq<Request>)
    ensures |qs| == |rs| && forall i :: 0 <= i < |rs| ==> qs[i] == rs[i].req
  {
    seq(|rs|, i requires 0 <= i < |rs| => rs[i].req)
  }

  function Below(failed: set<nat>, id: nat): set<nat> { set f | f in failed && f < id }

  /** The place of a batch among those that were really sent. */
  function Rank(failed: set<nat>, id: nat): int { id - |Below(failed, id)| }

  predicate Alive(s: State) { s.receiver != Stopping && s.receiver != Stopped }

  predicate InSync(pc: Pc) { pc.Drained? || pc.Armed? || pc.Waiting? }

  function CountedNow(s: State): nat { if s.pc.Counted? then 1 else 0 }

  /** 1 while a synchronous request is out and its response not in the slot. */
  function AskedNow(s: State): nat { if s.pc.Direct? || (s.pc.Waiting? && !s.syncSlot.Answer?) then 1 else 0 }

  /** What is in flight while the receiver works: only batches, in the order of their
      ranks; or nothing but the synchronous request. */
  ghost predicate FlightOk(s: State) {
    match s.pc
    case Waiting(tag) => Flight(s) == if s.syncSlot == Empty then [SyncReq(tag)] else []
    case Drained => Flight(s) == []
    case Armed(_) => Flight(s) == []
    case _ => !s.pc.Direct? && Batches(s, Flight(s))
  }

  ghost predicate BatchAt(s: State, q: Request, k: nat) {
    q.AsyncReq? && Rank(s.failed, q.id) == s.received + k + 1 && 0 < q.id < s.nextBatchId
  }

  ghost predicate Batches(s: State, flight: seq<Request>) {
    forall k {:trigger flight[k]} :: 0 <= k < |flight| ==> BatchAt(s, flight[k], k)
  }

  /** The counters and the batch ids. */
  ghost predicate CountsOk(s: State) {
    s.consumed + |s.results| <= s.received && CountedNow(s) <= s.sent &&
    s.nextBatchId == 1 + s.sent + |s.failed| + (if s.pc.Numbered? then 1 else 0) &&
    (s.pc.Numbered? || s.pc.Counted? ==> s.pc.id == s.nextBatchId - 1) &&
    (forall f :: f in s.failed ==> f < if s.pc.Numbered? || s.pc.Counted? then s.pc.id else s.nextBatchId) &&
    (s.receiver == NotStarted ==> (s.pc.Idle? || s.pc.Direct?) && s.sent == 0 && s.received == 0 && s.owedAtStart == 0)
  }

  /** A synchronous request on the wire is an old one, or the last, of the direct call. */
  ghost predicate WireOk(s: State) {
    (s.torn ==> s.responses != []) && (s.pc.Armed? ==> s.pc.tag < s.nextTag) &&
    (forall q :: q in OnWire(s) && q.SyncReq? ==> q.tag < s.nextTag) &&
    (s.pc.Direct? ==> DirectOk(s))
  }

  ghost predicate DirectOk(s: State)
    requires s.pc.Direct?
  {
    var ahead := s.pc.ahead;
    !Running(s) && |OnWire(s)| == ahead + 1 && OnWire(s)[ahead] == SyncReq(s.pc.tag) &&
    (forall i :: 0 <= i < ahead ==> OnWire(s)[i] != SyncReq(s.pc.tag)) && (s.torn ==> ahead > 0)
  }

  ghost predicate CallsOk(s: State) {
    (s.syncWaiting <==> s.pc.Armed? || s.pc.Waiting?) &&
    (s.lastSync.Some? && s.lastSync.value.route.OnSocket? ==> DirectFinishOk(s.lastSync.value))
  }

  /** A direct call that brought something brought its own response if and only if nothing
      was undelivered when it was sent. */
  predicate DirectFinishOk(f: Finished)
    requires f.route.OnSocket?
  {
    f.slot == Lost || (f.slot == Answer(SyncReq(f.tag)) <==> f.route.ahead == 0)
  }

  /** Conservation: every request sent and not answered is in flight. */
  ghost predicate NothingVanishes(s: State) {
    s.received + CountedNow(s) <= s.sent &&
    |Flight(s)| == s.sent - s.received - CountedNow(s) + s.owed + AskedNow(s)
  }

  ghost predicate SyncOk(s: State) {
    (s.pc.Armed? ==> s.syncSlot == Empty || s.syncSlot == Lost) &&
    (s.pc.Waiting? ==> s.syncSlot == Empty || s.syncSlot == Lost || s.syncSlot == Answer(SyncReq(s.pc.tag))) &&
    (s.syncWaiting && s.syncSlot == Lost ==> !Alive(s)) &&
    (Running(s) && Alive(s) ==> s.owed == 0 && !s.torn && (InSync(s.pc) ==> s.received == s.sent)) &&
    (s.lastSync.Some? && s.lastSync.value.route.ViaReceiver? ==>
       s.lastSync.value.slot == Answer(SyncReq(s.lastSync.value.tag)) ||
       (s.lastSync.value.slot == Lost && !Alive(s)))
  }

  ghost predicate EchoesOk(v: Server, s: State) {
    (forall i :: 0 <= i < |s.responses| ==> EchoAllowed(v, s.responses[i].req, s.responses[i].echo)) &&
    (s.receiver.InHand? ==> EchoAllowed(v, s.receiver.r.req, s.receiver.r.echo))
  }

  /** Responses can be told apart: ids are echoed, or no send has failed. */
  predicate Keyed(v: Server, s: State) { v.echoes || s.failed == {} }

  ghost predicate ResultAt(v: Server, s: State, b: nat, r: AsyncResult) {
    r == ToResult(v.answer(AsyncReq(b))) && 0 < b < s.nextBatchId && Rank(s.failed, b) <= s.received
  }

  /** Every stored result is the server's response to the batch it is stored under. */
  ghost predicate ResultsOk(v: Server, s: State) {
    (forall b {:trigger s.results[b]} :: b in s.results ==> ResultAt(v, s, b, s.results[b])) &&
    |s.results| == s.received - s.consumed
  }

  /** What holds when nothing was owed as the receiver started. */
  ghost predicate CleanInv(v: Server, s: State) {
    NothingVanishes(s) && SyncOk(s) && EchoesOk(v, s) && (Running(s) && Alive(s) ==> FlightOk(s)) &&
    (Keyed(v, s) ==> ResultsOk(v, s))
  }

  ghost predicate Inv(v: Server, s: State) {
    CountsOk(s) && WireOk(s) && CallsOk(s) && (s.owedAtStart == 0 ==> CleanInv(v, s))
  }

  // ---------------------------------------------------------------- every step keeps them

  lemma {:induction false} InitInv(v: Server, cap: nat)
    ensures Inv(v, Init(cap))
  {}

  /** A failed id above every other changes no earlier rank. */
  lemma {:induction false} RankStable(failed: set<nat>, f: nat, id: nat)
    requires id <= f
    ensures Rank(failed + {f}, id) == Rank(failed, id)
  {
    assert Below(failed + {f}, id) == Below(failed, id);
  }

  lemma {:induction false} RankOfLatest(failed: set<nat>, id: nat)
    requires forall f :: f in failed ==> f < id
    ensures Rank(failed, id) == id - |failed|
  {
    assert Below(failed, id) == failed;
  }

  /** The server moves the oldest request over; the order in flight does not change. */
  lemma {:induction false} ServeFlight(v: Server, s: State, echo: nat)
    requires Step(v, s, Serve(echo)).Some?
    ensures OnWire(Step(v, s, Serve(echo)).value) == OnWire(s)
  {
    var s' := Step(v, s, Serve(echo)).value;
    assert Answered(s'.responses) == Answered(s.responses) + [s.requests[0]];
    assert s.requests == [s.requests[0]] + s.requests[1..];
  }

  /** Taking the oldest response off the wire. */
  lemma {:induction false} TakeFlight(s: State, s': State)
    requires s.responses != [] && s'.responses == s.responses[1..] && s'.requests == s.requests
    ensures OnWire(s) == [s.responses[0].req] + OnWire(s')
  {
    hide Answered;
    assert Answered(s.responses) == [s.responses[0].req] + Answered(s'.responses);
  }

  lemma {:induction false} SendFlight(s: State, s': State, q: Request)
    requires s'.responses == s.responses && s'.requests == s.requests + [q]
    ensures OnWire(s') == OnWire(s) + [q]
  {}

  lemma {:induction false} CountsStep(v: Server, s: State, a: Action)
    requires CountsOk(s) && Step(v, s, a).Some?
    ensures CountsOk(Step(v, s, a).value)
  {
    match a
    case StartReceiver => {}
    case Consume(_) => ResultCountsStep(v, s, a);
    case Dispatch => ResultCountsStep(v, s, a);
    case TakeId => NumberCountsStep(v, s, a);
    case CountSent => NumberCountsStep(v, s, a);
    case SendBatch(_) => SendCountsStep(v, s, a);
    case Drain => CallCountsStep(v, s, a);
    case Arm => CallCountsStep(v, s, a);
    case SendSync(_) => CallCountsStep(v, s, a);
    case ReturnSync => CallCountsStep(v, s, a);
    case SendDirect => CallCountsStep(v, s, a);
    case ReceiveDirect => CallCountsStep(v, s, a);
    case FailDirect(_) => CallCountsStep(v, s, a);
    case _ => OtherCountsStep(v, s, a);
  }

  lemma {:induction false} OtherCountsStep(v: Server, s: State, a: Action)
    requires CountsOk(s) && Step(v, s, a).Some?
    requires a.Admit? || a.SetMaxPending? || a.Serve? || a.Read? || a.ReadTorn? || a.Stop? || a.Exit?
    ensures CountsOk(Step(v, s, a).value)
  {
    hide Flight, OnWire, ToResult, EchoAllowed;
    var s' := Step(v, s, a).value;
    assert s'.results == s.results && s'.failed == s.failed;
  }

  lemma {:induction false} CallCountsStep(v: Server, s: State, a: Action)
    requires CountsOk(s) && Step(v, s, a).Some?
    requires a.Drain? || a.Arm? || a.SendSync? || a.ReturnSync? || a.SendDirect? || a.ReceiveDirect? || a.FailDirect?
    ensures CountsOk(Step(v, s, a).value)
  {
    hide Flight, OnWire, ToResult, EchoAllowed;
    var s' := Step(v, s, a).value;
    assert s'.results == s.results && s'.failed == s.failed;
  }

  lemma {:induction false} NumberCountsStep(v: Server, s: State, a: Action)
    requires CountsOk(s) && Step(v, s, a).Some? && (a.TakeId? || a.CountSent?)
    ensures CountsOk(Step(v, s, a).value)
  {
    hide Flight, OnWire, ToResult, EchoAllowed;
  }

  lemma {:induction false} SendCountsStep(v: Server, s: State, a: Action)
    requires CountsOk(s) && Step(v, s, a).Some? && a.SendBatch?
    ensures CountsOk(Step(v, s, a).value)
  {
    hide Flight, OnWire, ToResult, EchoAllowed;
  }

  lemma {:induction false} ResultCountsStep(v: Server, s: State, a: Action)
    requires CountsOk(s) && Step(v, s, a).Some? && (a.Consume? || a.Dispatch?)
    ensures CountsOk(Step(v, s, a).value)
  {
    hide Flight, OnWire, ToResult, EchoAllowed;
    var s' := Step(v, s, a).value;
    if a.Consume? {
      FewerResults(s.results, a.id);
    } else if !s.syncWaiting {
      MoreResults(s.results, Key(s.receiver.r, s.received), ToResult(v.answer(s.receiver.r.req)));
    }
  }

  lemma {:induction false} FewerResults(results: map<nat, AsyncResult>, id: nat)
    requires id in results
    ensures |results - {id}| == |results| - 1
  {
    assert results.Keys == (results - {id}).Keys + {id};
  }

  lemma {:induction false} MoreResults(results: map<nat, AsyncResult>, id: nat, r: AsyncResult)
    ensures |results[id := r]| == |results| + if id in results then 0 else 1
  {
    assert results[id := r].Keys == results.Keys + {id};
  }

  lemma {:induction false} CallsStep(v: Server, s: State, a: Action)
    requires CallsOk(s) && WireOk(s) && CountsOk(s) && Step(v, s, a).Some?
    ensures CallsOk(Step(v, s, a).value)
  {
    hide OnWire, ToResult, EchoAllowed, CountsOk;
    if a.ReceiveDirect? && !s.torn {
      TakeFlight(s, Step(v, s, a).value);
      assert OnWire(s)[0] == s.responses[0].req;
    }
  }

  /** Only these actions change what is on the wire or who waits for it. */
  predicate TouchesWire(a: Action) {
    a.SendBatch? || a.SendSync? || a.SendDirect? || a.ReceiveDirect? || a.Serve? || a.Read?
  }

  lemma {:induction false} WireStep(v: Server, s: State, a: Action)
    requires WireOk(s) && Step(v, s, a).Some?
    ensures WireOk(Step(v, s, a).value)
  {
    hide ToResult, EchoAllowed, OnWire;
    var s' := Step(v, s, a).value;
    if a.Serve? {
      ServeFlight(v, s, a.echo);
    } else if a.Read? || a.ReceiveDirect? {
      TakeWire(v, s, a);
    } else if a.SendDirect? {
      AskedWire(v, s);
    } else if TouchesWire(a) && s'.requests != s.requests {
      SendFlight(s, s', s'.requests[|s.requests|]);
    } else {
      SameWire(s, s');
    }
  }

  lemma {:induction false} TakeWire(v: Server, s: State, a: Action)
    requires WireOk(s) && Step(v, s, a).Some? && (a.Read? || a.ReceiveDirect?)
    ensures WireOk(Step(v, s, a).value)
  {
    hide ToResult, EchoAllowed, OnWire;
    if a.ReceiveDirect? && s.torn {
      SameWire(s, Step(v, s, a).value);
    } else {
      TakeFlight(s, Step(v, s, a).value);
    }
  }

  /** A direct call's request stands behind everything undelivered and differs from it. */
  lemma {:induction false} AskedWire(v: Server, s: State)
    requires WireOk(s) && Step(v, s, SendDirect).Some?
    ensures WireOk(Step(v, s, SendDirect).value)
  {
    hide Answered;
    var s' := Step(v, s, SendDirect).value;
    SendFlight(s, s', SyncReq(s.nextTag));
    assert Flight(s) == OnWire(s);
    forall i | 0 <= i < s'.pc.ahead ensures OnWire(s')[i] != SyncReq(s.nextTag) { assert OnWire(s)[i] in OnWire(s); }
  }

  lemma {:induction false} SameWire(s: State, s': State)
    requires s'.responses == s.responses && s'.requests == s.requests
    ensures OnWire(s') == OnWire(s)
  {}

  /** Nothing leaves or enters the flight. */
  lemma {:induction false} QuietFlight(v: Server, s: State, a: Action)
    requires Step(v, s, a).Some? && !TouchesWire(a) && !a.Dispatch? && !a.ReadTorn?
    ensures Flight(Step(v, s, a).value) == Flight(s)
  {
    SameWire(s, Step(v, s, a).value);
    hide OnWire, ToResult, EchoAllowed;
  }

  lemma {:induction false} AdmitStep(v: Server, s: State)
    requires Inv(v, s) && Step(v, s, Admit).Some? && s.owedAtStart == 0
    ensures CleanInv(v, Step(v, s, Admit).value)
  {
    QuietFlight(v, s, Admit);
    hide Rank, ToResult, Flight, OnWire, EchoAllowed;
  }

  lemma {:induction false} SetMaxPendingStep(v: Server, s: State, n: int)
    requires Inv(v, s) && Step(v, s, SetMaxPending(n)).Some? && s.owedAtStart == 0
    ensures CleanInv(v, Step(v, s, SetMaxPending(n)).value)
  {
    QuietFlight(v, s, SetMaxPending(n));
    hide Rank, ToResult, Flight, OnWire, EchoAllowed;
  }

  lemma {:induction false} TakeIdStep(v: Server, s: State)
    requires Inv(v, s) && Step(v, s, TakeId).Some? && s.owedAtStart == 0
    ensures CleanInv(v, Step(v, s, TakeId).value)
  {
    QuietFlight(v, s, TakeId);
    hide Rank, ToResult, Flight, OnWire, EchoAllowed;
  }

  lemma {:induction false} CountSentStep(v: Server, s: State)
    requires Inv(v, s) && Step(v, s, CountSent).Some? && s.owedAtStart == 0
    ensures CleanInv(v, Step(v, s, CountSent).value)
  {
    QuietFlight(v, s, CountSent);
    hide Rank, ToResult, Flight, OnWire, EchoAllowed, WireOk, CallsOk;
  }

  lemma {:induction false} DrainStep(v: Server, s: State)
    requires Inv(v, s) && Step(v, s, Drain).Some? && s.owedAtStart == 0
    ensures CleanInv(v, Step(v, s, Drain).value)
  {
    QuietFlight(v, s, Drain);
    hide Rank, ToResult, Flight, OnWire, EchoAllowed;
  }

  lemma {:induction false} ArmStep(v: Server, s: State)
    requires Inv(v, s) && Step(v, s, Arm).Some? && s.owedAtStart == 0
    ensures CleanInv(v, Step(v, s, Arm).value)
  {
    QuietFlight(v, s, Arm);
    hide Rank, ToResult, Flight, OnWire, EchoAllowed, WireOk, CallsOk;
  }

  lemma {:induction false} ReturnSyncStep(v: Server, s: State)
    requires Inv(v, s) && Step(v, s, ReturnSync).Some? && s.owedAtStart == 0
    ensures CleanInv(v, Step(v, s, ReturnSync).value)
  {
    QuietFlight(v, s, ReturnSync);
    hide Rank, ToResult, Flight, OnWire, EchoAllowed;
  }

  lemma {:induction false} FailDirectStep(v: Server, s: State, tears: bool)
    requires Inv(v, s) && Step(v, s, FailDirect(tears)).Some? && s.owedAtStart == 0
    ensures CleanInv(v, Step(v, s, FailDirect(tears)).value)
  {
    QuietFlight(v, s, FailDirect(tears));
    hide Rank, ToResult, Flight, OnWire, EchoAllowed;
  }

  lemma {:induction false} StopStep(v: Server, s: State, tears: bool)
    requires Inv(v, s) && Step(v, s, Stop(tears)).Some? && s.owedAtStart == 0
    ensures CleanInv(v, Step(v, s, Stop(tears)).value)
  {
    QuietFlight(v, s, Stop(tears));
    hide Rank, ToResult, Flight, OnWire, EchoAllowed, WireOk, CallsOk;
  }

  lemma {:induction false} ExitStep(v: Server, s: State)
    requires Inv(v, s) && Step(v, s, Exit).Some? && s.owedAtStart == 0
    ensures CleanInv(v, Step(v, s, Exit).value)
  {
    QuietFlight(v, s, Exit);
    hide Rank, ToResult, Flight, OnWire, EchoAllowed, WireOk, CallsOk;
  }

  lemma {:induction false} StartStep(v: Server, s: State)
    requires Inv(v, s) && Step(v, s, StartReceiver).Some? && s.owed == 0
    ensures CleanInv(v, Step(v, s, StartReceiver).value)
  {
    QuietFlight(v, s, StartReceiver);
    hide Rank, ToResult, EchoAllowed;
  }

  lemma {:induction false} ConsumeStep(v: Server, s: State, id: nat)
    requires Inv(v, s) && Step(v, s, Consume(id)).Some? && s.owedAtStart == 0
    ensures CleanInv(v, Step(v, s, Consume(id)).value)
  {
    var s' := s.(results := s.results - {id}, consumed := s.consumed + 1);
    QuietFlight(v, s, Consume(id));
    assert Step(v, s, Consume(id)) == Some(s');
    hide Step, ToResult, Flight, ResultsOk, NothingVanishes, SyncOk, EchoesOk, FlightOk, CountsOk, WireOk, CallsOk;
    BesideResults(v, s, s');
    if Running(s) && Alive(s) { SameFlightOk(s, s'); }
    if Keyed(v, s) { ResultRemoved(v, s, id, s'); }
  }

  lemma {:induction false} BesideResults(v: Server, s: State, s': State)
    requires s' == s.(results := s'.results, consumed := s'.consumed) && Flight(s') == Flight(s)
    ensures NothingVanishes(s) ==> NothingVanishes(s')
    ensures SyncOk(s) ==> SyncOk(s')
    ensures EchoesOk(v, s) ==> EchoesOk(v, s')
  {
    hide Flight, EchoAllowed;
  }

  lemma {:induction false} SameFlightOk(s: State, s': State)
    requires s' == s.(results := s'.results, consumed := s'.consumed) && Flight(s') == Flight(s) && FlightOk(s)
    ensures FlightOk(s')
  {
    hide Flight, Rank;
    forall k | 0 <= k < |Flight(s)| && BatchAt(s, Flight(s)[k], k) ensures BatchAt(s', Flight(s')[k], k) {}
  }

  lemma {:induction false} ResultRemoved(v: Server, s: State, id: nat, s': State)
    requires ResultsOk(v, s) && id in s.results
    requires s' == s.(results := s.results - {id}, consumed := s.consumed + 1)
    ensures ResultsOk(v, s')
  {
    hide Rank, ToResult;
    FewerResults(s.results, id);
    forall b | b in s'.results ensures ResultAt(v, s', b, s'.results[b]) { assert ResultAt(v, s, b, s.results[b]); }
  }

  lemma {:induction false} SendStep(v: Server, s: State)
    requires Inv(v, s) && Step(v, s, SendBatch(true)).Some? && s.owedAtStart == 0
    ensures CleanInv(v, Step(v, s, SendBatch(true)).value)
  {
    var s' := Step(v, s, SendBatch(true)).value;
    SendFlight(s, s', AsyncReq(s.pc.id));
    hide OnWire, ToResult, EchoAllowed;
    assert Flight(s') == Flight(s) + [AsyncReq(s.pc.id)];
    RankOfLatest(s.failed, s.pc.id);
    if Alive(s) {
      forall k | 0 <= k < |Flight(s')| ensures BatchAt(s', Flight(s')[k], k) {
        if k < |Flight(s)| { assert BatchAt(s, Flight(s)[k], k); }
      }
    }
  }

  lemma {:induction false} FailedSendStep(v: Server, s: State)
    requires Inv(v, s) && Step(v, s, SendBatch(false)).Some? && s.owedAtStart == 0
    ensures CleanInv(v, Step(v, s, SendBatch(false)).value)
  {
    var s' := s.(pc := Idle, sent := s.sent - 1, failed := s.failed + {s.pc.id});
    assert Step(v, s, SendBatch(false)) == Some(s');
    FailedFlight(s, s');
    FailedKeepsRest(v, s, s');
    hide Step, Flight, Rank, Batches, ResultsOk, NothingVanishes, SyncOk, EchoesOk, WireOk, CallsOk;
    if Alive(s) { FailedKeepsBatches(s, s'); }
    if Keyed(v, s') { FailedKeepsResults(v, s, s'); }
  }

  lemma {:induction false} FailedFlight(s: State, s': State)
    requires s' == s.(pc := Idle, sent := s'.sent, failed := s'.failed)
    ensures Flight(s') == Flight(s)
  {
    SameWire(s, s');
    hide OnWire;
  }

  lemma {:induction false} FailedKeepsRest(v: Server, s: State, s': State)
    requires s.pc.Counted? && s.sent > 0 && s' == s.(pc := Idle, sent := s.sent - 1, failed := s'.failed)
    requires Flight(s') == Flight(s) && NothingVanishes(s) && SyncOk(s) && EchoesOk(v, s)
    ensures NothingVanishes(s') && SyncOk(s') && EchoesOk(v, s')
  {
    hide Flight, EchoAllowed;
  }

  lemma {:induction false} FailedKeepsBatches(s: State, s': State)
    requires s.pc.Counted? && s' == s.(pc := Idle, sent := s'.sent, failed := s.failed + {s.pc.id})
    requires Flight(s') == Flight(s) && Batches(s, Flight(s)) && CountsOk(s)
    ensures Batches(s', Flight(s'))
  {
    hide Flight, Rank;
    forall k | 0 <= k < |Flight(s')| ensures BatchAt(s', Flight(s')[k], k) {
      assert BatchAt(s, Flight(s)[k], k);
      RankStable(s.failed, s.pc.id, Flight(s)[k].id);
    }
  }

  lemma {:induction false} FailedKeepsResults(v: Server, s: State, s': State)
    requires s.pc.Counted? && s' == s.(pc := Idle, sent := s'.sent, failed := s.failed + {s.pc.id})
    requires ResultsOk(v, s) && CountsOk(s)
    ensures ResultsOk(v, s')
  {
    hide ToResult, Rank;
    forall b | b in s'.results ensures ResultAt(v, s', b, s'.results[b]) {
      assert ResultAt(v, s, b, s.results[b]);
      RankStable(s.failed, s.pc.id, b);
    }
  }

  lemma {:induction false} AskStep(v: Server, s: State)
    requires Inv(v, s) && Step(v, s, SendSync(true)).Some? && s.owedAtStart == 0
    ensures CleanInv(v, Step(v, s, SendSync(true)).value)
  {
    SendFlight(s, Step(v, s, SendSync(true)).value, SyncReq(s.pc.tag));
    hide Rank, ToResult, OnWire, EchoAllowed;
  }

  lemma {:induction false} AskDirectStep(v: Server, s: State)
    requires Inv(v, s) && Step(v, s, SendDirect).Some? && s.owedAtStart == 0
    ensures CleanInv(v, Step(v, s, SendDirect).value)
  {
    SendFlight(s, Step(v, s, SendDirect).value, SyncReq(s.nextTag));
    hide Rank, ToResult, OnWire, EchoAllowed;
  }

  lemma {:induction false} UnaskedStep(v: Server, s: State)
    requires Inv(v, s) && Step(v, s, SendSync(false)).Some? && s.owedAtStart == 0
    ensures CleanInv(v, Step(v, s, SendSync(false)).value)
  {
    SameWire(s, Step(v, s, SendSync(false)).value);
    hide Rank, ToResult, OnWire, EchoAllowed;
  }

  lemma {:induction false} ReceiveStep(v: Server, s: State)
    requires Inv(v, s) && Step(v, s, ReceiveDirect).Some? && s.owedAtStart == 0
    ensures CleanInv(v, Step(v, s, ReceiveDirect).value)
  {
    var s' := Step(v, s, ReceiveDirect).value;
    if s.torn { SameWire(s, s'); } else { TakeFlight(s, s'); }
    hide Rank, ToResult, OnWire, EchoAllowed;
  }

  lemma {:induction false} ServeStep(v: Server, s: State, echo: nat)
    requires Inv(v, s) && Step(v, s, Serve(echo)).Some? && s.owedAtStart == 0
    ensures CleanInv(v, Step(v, s, Serve(echo)).value)
  {
    ServeFlight(v, s, echo);
    hide Rank, ToResult, OnWire, WireOk, CallsOk, CountsOk;
  }

  lemma {:induction false} ReadStep(v: Server, s: State)
    requires Inv(v, s) && Step(v, s, Read).Some? && s.owedAtStart == 0
    ensures CleanInv(v, Step(v, s, Read).value)
  {
    TakeFlight(s, Step(v, s, Read).value);
    hide Rank, ToResult, OnWire;
    assert Flight(Step(v, s, Read).value) == Flight(s);
  }

  /** A dispatched batch response: it answers the batch of the next rank. */
  lemma {:induction false} DispatchedBatch(v: Server, s: State)
    requires Inv(v, s) && s.receiver.InHand? && !s.syncWaiting && s.owedAtStart == 0
    ensures s.receiver.r.req.AsyncReq? && Rank(s.failed, s.receiver.r.req.id) == s.received + 1
    ensures 0 < s.receiver.r.req.id < s.nextBatchId
  {
    hide OnWire, ToResult;
    assert Flight(s)[0] == s.receiver.r.req;
    assert BatchAt(s, Flight(s)[0], 0);
  }

  /** Its key is its batch id exactly when the id was echoed or no earlier send has failed. */
  lemma {:induction false} KeyIsId(v: Server, s: State)
    requires Inv(v, s) && s.receiver.InHand? && !s.syncWaiting && s.owedAtStart == 0
    ensures s.receiver.r.req.AsyncReq?
    ensures var r := s.receiver.r;
            Key(r, s.received) == r.req.id <==> r.echo != 0 || Below(s.failed, r.req.id) == {}
  {
    DispatchedBatch(v, s);
    hide OnWire, ToResult;
  }

  lemma {:induction false} DispatchFlight(v: Server, s: State)
    requires Step(v, s, Dispatch).Some?
    ensures Flight(s) == [s.receiver.r.req] + Flight(Step(v, s, Dispatch).value)
  {
    SameWire(s, Step(v, s, Dispatch).value);
    hide OnWire, ToResult;
  }

  /** A response dispatched while a synchronous call waits is the one to its request. */
  lemma {:induction false} DispatchSyncStep(v: Server, s: State)
    requires Inv(v, s) && Step(v, s, Dispatch).Some? && s.owedAtStart == 0 && s.syncWaiting
    ensures CleanInv(v, Step(v, s, Dispatch).value)
  {
    DispatchFlight(v, s);
    var s' := Step(v, s, Dispatch).value;
    hide Flight, OnWire, Rank, ToResult;
    assert |Flight(s)| == 1 + |Flight(s')| && Flight(s)[0] == s.receiver.r.req;
    if Keyed(v, s) {
      forall b | b in s'.results ensures ResultAt(v, s', b, s'.results[b]) { assert ResultAt(v, s, b, s.results[b]); }
    }
  }

  lemma {:induction false} DispatchBatchStep(v: Server, s: State)
    requires Inv(v, s) && Step(v, s, Dispatch).Some? && s.owedAtStart == 0 && !s.syncWaiting
    ensures CleanInv(v, Step(v, s, Dispatch).value)
  {
    var s' := Step(v, s, Dispatch).value;
    DispatchFlight(v, s);
    DispatchedBatch(v, s);
    DispatchKeepsFlight(v, s);
    if Keyed(v, s) { DispatchKeepsResults(v, s); }
    assert s' == s.(receiver := Polling, received := s.received + 1, results := s'.results);
    hide Step;
    DispatchKeepsRest(v, s, s');
  }

  lemma {:induction false} DispatchKeepsRest(v: Server, s: State, s': State)
    requires s' == s.(receiver := Polling, received := s.received + 1, results := s'.results)
    requires s.receiver.InHand? && !s.syncWaiting && CallsOk(s) && |Flight(s)| == 1 + |Flight(s')|
    requires NothingVanishes(s) && SyncOk(s) && EchoesOk(v, s) && FlightOk(s) && s.received < s.sent
    ensures NothingVanishes(s') && SyncOk(s') && EchoesOk(v, s')
  {
    hide Flight, EchoAllowed, Batches;
  }

  lemma {:induction false} DispatchKeepsFlight(v: Server, s: State)
    requires Inv(v, s) && Step(v, s, Dispatch).Some? && s.owedAtStart == 0 && !s.syncWaiting
    ensures FlightOk(Step(v, s, Dispatch).value)
  {
    DispatchFlight(v, s);
    var s' := Step(v, s, Dispatch).value;
    hide Flight, OnWire, Rank, ToResult, ResultsOk, EchoesOk;
    assert |Flight(s)| == 1 + |Flight(s')|;
    forall k | 0 <= k < |Flight(s')| ensures BatchAt(s', Flight(s')[k], k) {
      assert BatchAt(s, Flight(s)[k + 1], k + 1);
    }
  }

  lemma {:induction false} DispatchKeepsResults(v: Server, s: State)
    requires Inv(v, s) && Step(v, s, Dispatch).Some? && !s.syncWaiting && Keyed(v, s) && s.owedAtStart == 0
    ensures ResultsOk(v, Step(v, s, Dispatch).value)
  {
    DispatchedBatch(v, s);
    KeyIsId(v, s);
    hide OnWire, ToResult;
    var id := s.receiver.r.req.id;
    assert Below({}, id) == {};
    ResultAdded(v, s, id, Step(v, s, Dispatch).value);
  }

  lemma {:induction false} ResultAdded(v: Server, s: State, id: nat, s': State)
    requires ResultsOk(v, s) && Rank(s.failed, id) == s.received + 1 && 0 < id < s.nextBatchId
    requires s'.failed == s.failed && s'.nextBatchId == s.nextBatchId && s'.consumed == s.consumed
    requires s'.received == s.received + 1 && s'.results == s.results[id := ToResult(v.answer(AsyncReq(id)))]
    ensures ResultsOk(v, s')
  {
    hide Rank, ToResult;
    forall b | b in s.results ensures Rank(s.failed, b) <= s.received { assert ResultAt(v, s, b, s.results[b]); }
    assert id !in s.results;
    MoreResults(s.results, id, ToResult(v.answer(AsyncReq(id))));
    forall b | b in s'.results ensures ResultAt(v, s', b, s'.results[b]) {
      if b != id { assert ResultAt(v, s, b, s.results[b]); }
    }
  }

  lemma {:induction false} CleanStep(v: Server, s: State, a: Action)
    requires Inv(v, s) && Step(v, s, a).Some? && Step(v, s, a).value.owedAtStart == 0
    ensures CleanInv(v, Step(v, s, a).value)
  {
    assert a.StartReceiver? ==> s.owed == 0;
    assert !a.StartReceiver? ==> s.owedAtStart == 0;
    assert !a.ReadTorn?;
    hide Inv, CleanInv, Step;
    match a
    case StartReceiver => StartStep(v, s);
    case SendBatch(delivered) => if delivered { SendStep(v, s); } else { FailedSendStep(v, s); }
    case Consume(id) => ConsumeStep(v, s, id);
    case SendSync(delivered) => if delivered { AskStep(v, s); } else { UnaskedStep(v, s); }
    case SendDirect => AskDirectStep(v, s);
    case ReceiveDirect => ReceiveStep(v, s);
    case Serve(echo) => ServeStep(v, s, echo);
    case Read => ReadStep(v, s);
    case Dispatch => if s.syncWaiting { DispatchSyncStep(v, s); } else { DispatchBatchStep(v, s); }
    case Admit => AdmitStep(v, s);
    case SetMaxPending(n) => SetMaxPendingStep(v, s, n);
    case TakeId => TakeIdStep(v, s);
    case CountSent => CountSentStep(v, s);
    case Drain => DrainStep(v, s);
    case Arm => ArmStep(v, s);
    case Stop(tears) => StopStep(v, s, tears);
    case Exit => ExitStep(v, s);
    case ReturnSync => ReturnSyncStep(v, s);
    case FailDirect(tears) => FailDirectStep(v, s, tears);
  }

  lemma {:induction false} StepKeepsInv(v: Server, s: State, a: Action)
    requires Inv(v, s) && Step(v, s, a).Some?
    ensures Inv(v, Step(v, s, a).value)
  {
    CountsStep(v, s, a);
    WireStep(v, s, a);
    CallsStep(v, s, a);
    if Step(v, s, a).value.owedAtStart == 0 { CleanStep(v, s, a); }
    hide CountsOk, WireOk, CallsOk, CleanInv, Step;
  }

  lemma {:induction false} RunKeepsInv(v: Server, cap: nat, actions: seq<Action>)
    requires Run(v, Init(cap), actions).Some?
    ensures Inv(v, Run(v, Init(cap), actions).value)
    decreases |actions|
  {
    hide Inv, Step;
    if actions == [] {
      InitInv(v, cap);
    } else {
      RunKeepsInv(v, cap, actions[..|actions| - 1]);
      StepKeepsInv(v, Run(v, Init(cap), actions[..|actions| - 1]).value, actions[|actions| - 1]);
    }
  }

  // ---------------------------------------------------------------- what every run guarantees

  /** What the documentation promises of a state: the counters are in order and, while ids
      are echoed or no send has failed, every stored result is the server's response to the
      batch it is stored under, one for every received, unconsumed response. */
  ghost predicate Truthful(v: Server, s: State) {
    s.consumed + |s.results| <= s.received <= s.sent &&
    (Keyed(v, s) ==> |s.results| == s.received - s.consumed &&
                     forall b :: b in s.results ==> Reports(s.results[b], v.answer(AsyncReq(b))))
  }

  lemma {:induction false} CleanIsTruthful(v: Server, s: State)
    requires Inv(v, s) && s.owedAtStart == 0
    ensures Truthful(v, s)
  {
    hide ToResult, Flight, OnWire, Reports;
    if Keyed(v, s) {
      forall b | b in s.results ensures Reports(s.results[b], v.answer(AsyncReq(b))) {
        assert ResultAt(v, s, b, s.results[b]);
        ResultReports(v.answer(AsyncReq(b)));
      }
    }
  }

  /** Counters: consumed <= received <= sent, with room for every stored result, unless the
      receiver was started while the response of a failed direct call was still to come. */
  lemma {:induction false} CountersOrdered(v: Server, cap: nat, actions: seq<Action>)
    requires Run(v, Init(cap), actions).Some?
    ensures var s := Run(v, Init(cap), actions).value;
            s.consumed + |s.results| <= s.received && (s.owedAtStart == 0 ==> s.received <= s.sent)
  {
    RunKeepsInv(v, cap, actions);
  }

  /** While ids are echoed or no send has failed, every stored result is the server's
      response to the batch it is stored under, and the stored results are exactly the
      received, unconsumed ones. */
  lemma {:induction false} ResultsBelongToTheirBatches(v: Server, cap: nat, actions: seq<Action>)
    requires Run(v, Init(cap), actions).Some?
    requires Keyed(v, Run(v, Init(cap), actions).value) && Run(v, Init(cap), actions).value.owedAtStart == 0
    ensures var s := Run(v, Init(cap), actions).value;
            (forall b :: b in s.results ==> Reports(s.results[b], v.answer(AsyncReq(b)))) &&
            |s.results| == s.received - s.consumed
  {
    RunKeepsInv(v, cap, actions);
    CleanIsTruthful(v, Run(v, Init(cap), actions).value);
  }

  /** The key the receiver is about to use is the id of the batch being answered exactly
      when the server echoed it or no send with a smaller id has failed. */
  lemma {:induction false} KeyCorrectIff(v: Server, cap: nat, actions: seq<Action>)
    requires Run(v, Init(cap), actions).Some? && Run(v, Init(cap), actions).value.owedAtStart == 0
    requires var s := Run(v, Init(cap), actions).value; s.receiver.InHand? && !s.syncWaiting
    ensures var s := Run(v, Init(cap), actions).value;
            var r := s.receiver.r;
            r.req.AsyncReq? &&
            (Key(r, s.received) == r.req.id <==> r.echo != 0 || forall f :: f in s.failed ==> r.req.id <= f)
  {
    RunKeepsInv(v, cap, actions);
    var s := Run(v, Init(cap), actions).value;
    KeyIsId(v, s);
    assert Below(s.failed, s.receiver.r.req.id) == {} <==> forall f :: f in s.failed ==> s.receiver.r.req.id <= f by {
      if f :| f in s.failed && f < s.receiver.r.req.id { assert f in Below(s.failed, s.receiver.r.req.id); }
    }
  }

  /** A synchronous call that goes through the receiver returns the answer to its own request,
      or reports the connection lost, which happens only once the receiver has stopped.  One
      that reads the socket itself and does not fail gets its own answer if and only if no
      response was undelivered when it was sent. */
  lemma {:induction false} SyncGetsItsOwnAnswer(v: Server, cap: nat, actions: seq<Action>)
    requires Run(v, Init(cap), actions).Some? && Run(v, Init(cap), actions).value.lastSync.Some?
    ensures var s := Run(v, Init(cap), actions).value;
            match s.lastSync.value
            case Finished(tag, slot, ViaReceiver) =>
              s.owedAtStart == 0 ==> slot == Answer(SyncReq(tag)) || (slot == Lost && !Alive(s))
            case Finished(tag, slot, OnSocket(ahead)) =>
              slot == Lost || (slot == Answer(SyncReq(tag)) <==> ahead == 0)
  {
    RunKeepsInv(v, cap, actions);
  }

  /** What a caller can check before a direct call: its answer will be its own exactly when
      every batch sent has been received and no earlier synchronous call came back without
      its response.  While the call is out the counters stand still. */
  lemma {:induction false} DirectCallOwnsIff(v: Server, cap: nat, actions: seq<Action>)
    requires Run(v, Init(cap), actions).Some? && Run(v, Init(cap), actions).value.owedAtStart == 0
    requires Step(v, Run(v, Init(cap), actions).value, ReceiveDirect).Some?
    ensures var s := Run(v, Init(cap), actions).value;
            var f := Step(v, s, ReceiveDirect).value.lastSync.value;
            f.tag == s.pc.tag && (f.slot == Answer(SyncReq(f.tag)) <==> s.received == s.sent && s.owed == 0)
  {
    RunKeepsInv(v, cap, actions);
    var s := Run(v, Init(cap), actions).value;
    CallsStep(v, s, ReceiveDirect);
    assert s.pc.ahead == s.sent - s.received + s.owed;
  }

  // ---------------------------------------------------------------- backpressure

  function Sends(actions: seq<Action>): nat {
    if actions == [] then 0
    else Sends(actions[..|actions| - 1]) + if actions[|actions| - 1] == SendBatch(true) then 1 else 0
  }

  /** The limit that was set last; anything not positive stands for 512. */
  function LastCap(cap: nat, actions: seq<Action>): nat {
    if actions == [] then cap
    else
      match actions[|actions| - 1]
      case SetMaxPending(n) => if n > 0 then n else 512
      case _ => LastCap(cap, actions[..|actions| - 1])
  }

  /** Nothing but the setter moves the limit. */
  lemma {:induction false} CapIsLastSet(v: Server, cap: nat, actions: seq<Action>)
    requires Run(v, Init(cap), actions).Some?
    ensures Run(v, Init(cap), actions).value.cap == LastCap(cap, actions)
  {
    if actions != [] {
      var before, last := actions[..|actions| - 1], actions[|actions| - 1];
      CapIsLastSet(v, cap, before);
      CapStep(v, Run(v, Init(cap), before).value, last);
      hide Step;
    }
  }

  lemma {:induction false} CapStep(v: Server, s: State, a: Action)
    requires Step(v, s, a).Some?
    ensures Step(v, s, a).value.cap == if a.SetMaxPending? then (if a.n > 0 then a.n else 512) else s.cap
  {
    hide ToResult, Flight, EchoAllowed, Key;
  }

  predicate Drains(a: Action) { a.Consume? || a.SetMaxPending? }

  /** A batch past the backpressure wait but not on the wire yet. */
  function UnderWay(s: State): nat {
    if s.pc.Admitted? || s.pc.Numbered? || s.pc.Counted? then 1 else 0
  }

  /** While the stored results are at the cap and nothing is consumed, no batch is admitted:
      only one that had passed the wait before can still be sent. */
  lemma {:induction false} Backpressure(v: Server, s: State, actions: seq<Action>)
    requires Run(v, s, actions).Some? && Pending(s) >= s.cap
    requires forall i :: 0 <= i < |actions| ==> !Drains(actions[i])
    ensures var s' := Run(v, s, actions).value;
            s'.cap == s.cap && Pending(s') >= Pending(s) && Sends(actions) + UnderWay(s') <= UnderWay(s)
    decreases |actions|
  {
    if actions != [] {
      var init, a := actions[..|actions| - 1], actions[|actions| - 1];
      Backpressure(v, s, init);
      BackpressureStep(v, Run(v, s, init).value, a);
    }
  }

  lemma {:induction false} BackpressureStep(v: Server, s: State, a: Action)
    requires Step(v, s, a).Some? && Pending(s) >= s.cap && !Drains(a)
    ensures var s' := Step(v, s, a).value;
            s'.cap == s.cap && Pending(s') >= Pending(s) &&
            (if a == SendBatch(true) then 1 else 0) + UnderWay(s') <= UnderWay(s)
  {}

  // ---------------------------------------------------------------- where the fallback fails

  ghost predicate Reaches(v: Server, s: State, t: State) { exists actions :: Run(v, s, actions) == Some(t) }

  lemma {:induction false} ReachStep(v: Server, s: State, t: State, a: Action, t': State)
    requires Reaches(v, s, t) && Step(v, t, a) == Some(t')
    ensures Reaches(v, s, t')
  {
    hide Step;
    var actions :| Run(v, s, actions) == Some(t);
    var more := actions + [a];
    assert more[..|more| - 1] == actions;
    assert Run(v, s, more) == Some(t');
  }

  /** One executeInsertAsync call, the send succeeding or not. */
  lemma {:induction false} ReachSend(v: Server, s: State, t: State, delivered: bool, t': State)
    requires Reaches(v, s, t) && t.pc == Idle && Running(t) && Pending(t) < t.cap
    requires var id := t.nextBatchId;
             t' == if delivered
                   then t.(nextBatchId := id + 1, sent := t.sent + 1, requests := t.requests + [AsyncReq(id)])
                   else t.(nextBatchId := id + 1, failed := t.failed + {id})
    ensures Reaches(v, s, t')
  {
    hide Reaches;
    var id := t.nextBatchId;
    ReachStep(v, s, t, Admit, t.(pc := Admitted));
    ReachStep(v, s, t.(pc := Admitted), TakeId, t.(pc := Numbered(id), nextBatchId := id + 1));
    var counted := t.(pc := Counted(id), nextBatchId := id + 1, sent := t.sent + 1);
    ReachStep(v, s, t.(pc := Numbered(id), nextBatchId := id + 1), CountSent, counted);
    ReachStep(v, s, counted, SendBatch(delivered), t');
  }

  /** A server that does not echo ids, one failed send, one that succeeds: the response to
      batch 2 is stored under 1. */
  lemma {:induction false} FallbackMisfiles(answer: Request -> Body)
    ensures exists s :: Reaches(Server(answer, false), Init(1024), s) &&
                        s.results.Keys == {1} && Reports(s.results[1], answer(AsyncReq(2)))
  {
    var v, s0 := Server(answer, false), Init(1024);
    assert Reaches(v, s0, s0) by { assert Run(v, s0, []) == Some(s0); }
    hide Reaches;
    var s1 := s0.(receiver := Polling);
    ReachStep(v, s0, s0, StartReceiver, s1);
    var s2 := s1.(nextBatchId := 2, failed := s1.failed + {1});
    ReachSend(v, s0, s1, false, s2);
    var s3 := s2.(nextBatchId := 3, sent := 1, requests := s2.requests + [AsyncReq(2)]);
    ReachSend(v, s0, s2, true, s3);
    ReachDelivery(v, s0, s3, AsyncReq(2));
    var s6 := s3.(requests := [], received := 1, results := s3.results[1 := ToResult(answer(AsyncReq(2)))]);
    ResultReports(answer(AsyncReq(2)));
    assert Reaches(v, s0, s6) && s6.results.Keys == {1};
  }

  /** The only request on the wire is answered without echo, read and dispatched. */
  lemma {:induction false} ReachDelivery(v: Server, s: State, t: State, q: Request)
    requires Reaches(v, s, t) && t.requests == [q] && q.AsyncReq? && t.responses == [] && !v.echoes
    requires t.receiver == Polling && !t.syncWaiting && !t.torn
    ensures Reaches(v, s, t.(requests := [], received := t.received + 1,
                             results := t.results[t.received + 1 := ToResult(v.answer(q))]))
  {
    hide Reaches, ToResult;
    var t1 := t.(requests := [], responses := [Response(q, 0)]);
    assert t.requests[1..] == [] && t.responses + [Response(q, 0)] == [Response(q, 0)];
    ReachStep(v, s, t, Serve(0), t1);
    var t2 := t1.(responses := [], receiver := InHand(Response(q, 0)));
    assert t1.responses[1..] == [];
    ReachStep(v, s, t1, Read, t2);
    var t3 := t.(requests := [], received := t.received + 1,
                 results := t.results[t.received + 1 := ToResult(v.answer(q))]);
    ReachStep(v, s, t2, Dispatch, t3);
  }

  // ---------------------------------------------------------------- where direct calls fail

  /** Batch 1 is on the wire when the receiver stops; the next synchronous call reads the
      socket itself and gets the answer to batch 1, whatever the server echoes. */
  lemma {:induction false} DirectCallGetsBatchAnswer(v: Server)
    ensures exists s :: Reaches(v, Init(1024), s) && s.lastSync == Some(Finished(0, Answer(AsyncReq(1)), OnSocket(1)))
  {
    var s0 := Init(1024);
    assert Reaches(v, s0, s0) by { assert Run(v, s0, []) == Some(s0); }
    hide Reaches;
    var s1 := s0.(receiver := Polling);
    ReachStep(v, s0, s0, StartReceiver, s1);
    var s2 := s1.(nextBatchId := 2, sent := 1, requests := [AsyncReq(1)]);
    ReachSend(v, s0, s1, true, s2);
    ReachStopped(v, s0, s2);
    ReachDirect(v, s0, s2.(receiver := Stopped), AsyncReq(1), 1);
  }

  /** The receiver's recv fails without having read anything. */
  lemma {:induction false} ReachStopped(v: Server, s: State, t: State)
    requires Reaches(v, s, t) && t.receiver == Polling && !t.syncWaiting
    ensures Reaches(v, s, t.(receiver := Stopped))
  {
    hide Reaches;
    ReachStep(v, s, t, Stop(false), t.(receiver := Stopping));
    ReachStep(v, s, t.(receiver := Stopping), Exit, t.(receiver := Stopped));
  }

  /** A direct call behind one unanswered request gets the answer to that. */
  lemma {:induction false} ReachDirect(v: Server, s: State, t: State, q: Request, echo: nat)
    requires Reaches(v, s, t) && t.pc == Idle && t.receiver == Stopped && !t.torn
    requires t.requests == [q] && t.responses == [] && EchoAllowed(v, q, echo)
    ensures exists u :: Reaches(v, s, u) && u.lastSync == Some(Finished(t.nextTag, Answer(q), OnSocket(1)))
  {
    hide Reaches;
    var own := SyncReq(t.nextTag);
    var t1 := t.(pc := Direct(t.nextTag, 1), nextTag := t.nextTag + 1, requests := [q, own]);
    assert Flight(t) == [q] && t.requests + [own] == [q, own];
    ReachStep(v, s, t, SendDirect, t1);
    ReachDirectAnswer(v, s, t1, q, own, echo);
  }

  lemma {:induction false} ReachDirectAnswer(v: Server, s: State, t: State, q: Request, own: Request, echo: nat)
    requires Reaches(v, s, t) && t.pc.Direct? && !t.torn && t.requests == [q, own] && t.responses == []
    requires EchoAllowed(v, q, echo)
    ensures exists u :: Reaches(v, s, u) && u.lastSync == Some(Finished(t.pc.tag, Answer(q), OnSocket(t.pc.ahead)))
  {
    hide Reaches, Flight, OnWire;
    var t1 := t.(requests := [own], responses := [Response(q, echo)]);
    assert t.requests[1..] == [own] && t.responses + [Response(q, echo)] == t1.responses;
    ReachStep(v, s, t, Serve(echo), t1);
    var t2 := t1.(pc := Idle, responses := [],
                  lastSync := Some(Finished(t.pc.tag, Answer(q), OnSocket(t.pc.ahead))));
    assert t1.responses[1..] == [];
    ReachStep(v, s, t1, ReceiveDirect, t2);
  }

  lemma {:induction false} ReachKeepsInv(v: Server, cap: nat, s: State)
    requires Reaches(v, Init(cap), s)
    ensures Inv(v, s)
  {
    var actions :| Run(v, Init(cap), actions) == Some(s);
    RunKeepsInv(v, cap, actions);
  }

  lemma {:induction false} RunOnKeepsInv(v: Server, s: State, actions: seq<Action>)
    requires Inv(v, s) && s.receiver != NotStarted && Run(v, s, actions).Some?
    ensures var t := Run(v, s, actions).value; Inv(v, t) && t.receiver != NotStarted && t.owedAtStart == s.owedAtStart
    decreases |actions|
  {
    hide Inv, Step;
    if actions != [] {
      var before := Run(v, s, actions[..|actions| - 1]).value;
      RunOnKeepsInv(v, s, actions[..|actions| - 1]);
      StepKeepsInv(v, before, actions[|actions| - 1]);
      StaysStarted(v, before, actions[|actions| - 1]);
    }
  }

  lemma {:induction false} StaysStarted(v: Server, s: State, a: Action)
    requires s.receiver != NotStarted && Step(v, s, a).Some?
    ensures var t := Step(v, s, a).value; t.receiver != NotStarted && t.owedAtStart == s.owedAtStart
  {}

  /** Starting the receiver keeps every later state truthful if and only if no synchronous
      call before came back without its response: otherwise that response can be counted,
      and filed, as one to a batch. */
  lemma {:induction false} StartIsCleanIff(v: Server, cap: nat, s: State)
    requires Reaches(v, Init(cap), s) && Step(v, s, StartReceiver).Some?
    ensures (forall t :: Reaches(v, Step(v, s, StartReceiver).value, t) ==> Truthful(v, t)) <==> s.owed == 0
  {
    ReachKeepsInv(v, cap, s);
    StepKeepsInv(v, s, StartReceiver);
    var s1 := Step(v, s, StartReceiver).value;
    if s.owed == 0 {
      forall t | Reaches(v, s1, t) ensures Truthful(v, t) {
        var actions :| Run(v, s1, actions) == Some(t);
        RunOnKeepsInv(v, s1, actions);
        CleanIsTruthful(v, t);
      }
    } else {
      OwedResponseIsCounted(v, s, s1);
    }
  }

  /** The response owed to a failed call is dispatched as one to a batch nobody sent. */
  lemma {:induction false} OwedResponseIsCounted(v: Server, s: State, s1: State)
    requires Inv(v, s) && Step(v, s, StartReceiver) == Some(s1) && s.owed > 0
    ensures exists t :: Reaches(v, s1, t) && t.received > t.sent
  {
    assert Flight(s) == OnWire(s) && |OnWire(s)| == s.owed;
    assert Reaches(v, s1, s1) by { assert Run(v, s1, []) == Some(s1); }
    hide Reaches;
    if s1.torn {
      CountsOneMore(v, s1, s1, ReadTorn(s1.responses[0]));
    } else if s1.responses != [] {
      CountsOneMore(v, s1, s1, Read);
    } else {
      var q := s1.requests[0];
      var echo := if q.AsyncReq? then q.id else 0;
      ReachStep(v, s1, s1, Serve(echo), Step(v, s1, Serve(echo)).value);
      CountsOneMore(v, s1, Step(v, s1, Serve(echo)).value, Read);
    }
  }

  lemma {:induction false} CountsOneMore(v: Server, s: State, t: State, a: Action)
    requires Reaches(v, s, t) && (a.Read? || a.ReadTorn?) && Step(v, t, a).Some?
    requires !t.syncWaiting && t.sent == t.received == 0
    ensures exists u :: Reaches(v, s, u) && u.received > u.sent
  {
    hide Reaches;
    var t1 := Step(v, t, a).value;
    ReachStep(v, s, t, a, t1);
    var u := Step(v, t1, Dispatch).value;
    ReachStep(v, s, t1, Dispatch, u);
  }

  /** A call through the receiver returned its own answer, or lost the connection. */
  predicate CallTruthful(s: State) {
    match s.lastSync
    case Some(Finished(tag, slot, ViaReceiver)) => slot == Answer(SyncReq(tag)) || (slot == Lost && !Alive(s))
    case _ => true
  }

  /** Starting the receiver gives every later synchronous call through it its own answer if
      and only if no synchronous call before came back without its response: otherwise one
      can get the response still to come. */
  lemma {:induction false} CallsOwnAnswersIff(v: Server, cap: nat, s: State)
    requires Reaches(v, Init(cap), s) && Step(v, s, StartReceiver).Some?
    ensures (forall t :: Reaches(v, Step(v, s, StartReceiver).value, t) ==> CallTruthful(t)) <==> s.owed == 0
  {
    ReachKeepsInv(v, cap, s);
    StepKeepsInv(v, s, StartReceiver);
    var s1 := Step(v, s, StartReceiver).value;
    if s.owed == 0 {
      forall t | Reaches(v, s1, t) ensures CallTruthful(t) {
        var actions :| Run(v, s1, actions) == Some(t);
        RunOnKeepsInv(v, s1, actions);
        CleanCall(v, t);
      }
    } else {
      OwedResponseIsReturned(v, s, s1);
    }
  }

  lemma {:induction false} CleanCall(v: Server, s: State)
    requires Inv(v, s) && s.owedAtStart == 0
    ensures CallTruthful(s)
  {}

  /** The response owed to a failed call is returned to the next one. */
  lemma {:induction false} OwedResponseIsReturned(v: Server, s: State, s1: State)
    requires Inv(v, s) && Step(v, s, StartReceiver) == Some(s1) && s.owed > 0
    ensures exists t :: Reaches(v, s1, t) && !CallTruthful(t)
  {
    FirstIsOlder(v, s);
    hide Inv, Reaches;
    ReachAsk(v, s1);
    if s1.torn {
      OtherAnswer(v, s1, Asked(s1), ReadTorn(Response(AsyncReq(0), 0)));
    } else if s1.responses != [] {
      OtherAnswer(v, s1, Asked(s1), Read);
    } else {
      ServeOther(v, s1, Asked(s1));
    }
  }

  /** What is still to come starts with the response to an older request. */
  lemma {:induction false} FirstIsOlder(v: Server, s: State)
    requires Inv(v, s) && s.pc == Idle && s.receiver == NotStarted && s.owed > 0
    ensures if s.responses != [] then s.responses[0].req != SyncReq(s.nextTag)
            else s.requests != [] && s.requests[0] != SyncReq(s.nextTag)
  {
    assert s.owedAtStart == 0;
    hide CallsOk, SyncOk, EchoesOk, FlightOk, ResultsOk, DirectOk;
    assert Flight(s) == OnWire(s) && |OnWire(s)| == s.owed;
    assert OnWire(s)[0] in OnWire(s);
    assert OnWire(s)[0] == if s.responses != [] then s.responses[0].req else s.requests[0];
  }

  lemma {:induction false} ServeOther(v: Server, s: State, t: State)
    requires Reaches(v, s, t) && t.receiver == Polling && t.responses == [] && !t.torn && t.syncWaiting && t.pc.Waiting?
    requires t.requests != [] && t.requests[0] != SyncReq(t.pc.tag)
    ensures exists u :: Reaches(v, s, u) && !CallTruthful(u)
  {
    hide Reaches;
    var q := t.requests[0];
    var echo := if q.AsyncReq? then q.id else 0;
    var t1 := t.(requests := t.requests[1..], responses := [Response(q, echo)]);
    assert t.responses + [Response(q, echo)] == t1.responses;
    ReachStep(v, s, t, Serve(echo), t1);
    OtherAnswer(v, s, t1, Read);
  }

  /** One synchronous call has sent its request. */
  function Asked(s: State): State {
    s.(pc := Waiting(s.nextTag), nextTag := s.nextTag + 1, syncWaiting := true, syncSlot := Empty,
       requests := s.requests + [SyncReq(s.nextTag)])
  }

  lemma {:induction false} ReachAsk(v: Server, s: State)
    requires s.pc == Idle && s.receiver == Polling && s.received >= s.sent
    ensures Reaches(v, s, Asked(s))
  {
    assert Reaches(v, s, s) by { assert Run(v, s, []) == Some(s); }
    hide Reaches;
    var t1 := s.(pc := Drained);
    ReachStep(v, s, s, Drain, t1);
    var t2 := t1.(pc := Armed(s.nextTag), nextTag := s.nextTag + 1, syncWaiting := true, syncSlot := Empty);
    ReachStep(v, s, t1, Arm, t2);
    ReachStep(v, s, t2, SendSync(true), Asked(s));
  }

  /** Another request's response, read while a call waits, is what the call returns. */
  lemma {:induction false} OtherAnswer(v: Server, s: State, t: State, a: Action)
    requires Reaches(v, s, t) && (a.Read? || a.ReadTorn?) && Step(v, t, a).Some? && t.syncWaiting && t.pc.Waiting?
    requires Step(v, t, a).value.receiver.r.req != SyncReq(t.pc.tag)
    ensures exists u :: Reaches(v, s, u) && !CallTruthful(u)
  {
    hide Reaches;
    var t1 := Step(v, t, a).value;
    ReachStep(v, s, t, a, t1);
    var t2 := Step(v, t1, Dispatch).value;
    ReachStep(v, s, t1, Dispatch, t2);
    var u := Step(v, t2, ReturnSync).value;
    ReachStep(v, s, t2, ReturnSync, u);
    assert !CallTruthful(u);
  }
}
