/** The application and the real model helper as two processes joined by two byte streams
    (app/decoder_ipc.c:955-995, app/fbx_helper.c:138-257). Either side may stop at any step and
    bytes travel in pieces of any size. */
module Lockstep {
  import opened Options
  import opened Wire
  import opened Reply
  import opened ModelSession

  const OPEN: u32 := 0
  /** What the helper computes: opening a source, and posing an opened one. None is a failure. */
  datatype Code = Code(open: seq<u8> -> Option<seq<u8>>, pose: (seq<u8>, seq<u8>) -> Option<seq<u8>>)

  datatype Request = Request(operation: u32, data: seq<u8>, cap: u32)

  /** The request in flight: its bytes not yet sent, and the reply bytes received. */
  datatype Flight = Flight(request: Request, toSend: seq<u8>, got: seq<u8>)

  datatype Exchange = Exchange(operation: u32, data: seq<u8>, payload: seq<u8>)

  datatype State = State(
    active: bool, sequence: nat, flight: Option<Flight>, log: seq<Exchange>,
    toHelper: seq<u8>, toClient: seq<u8>,
    alive: bool, served: nat, scene: Option<seq<u8>>, out: seq<u8>)

  function Initial(): State {
    State(true, 0, None, [], [], [], true, 0, None, [])
  }

  predicate FitsWire(r: Request) {
    |r.data| <= INPUT_MAX && r.operation <= POSE && r.cap <= OUTPUT_MAX
  }

  function RequestBytes(r: Request, sequence: nat): seq<u8>
    requires FitsWire(r) && sequence <= U32_MAX
  {
    RequestHeader(r.operation, |r.data|, sequence) + r.data
  }

  function ReplyBytes(operation: u32, sequence: u32, payload: seq<u8>): seq<u8>
    requires |payload| <= OUTPUT_MAX
  {
    MODEL_MAGIC + Put32(operation) + Put32(sequence) + Put32(|payload|) + payload
  }

  /** The helper's answer to one request with a given scene; None when it exits instead. */
  function Answer(code: Code, scene: Option<seq<u8>>, operation: u32, data: seq<u8>): Option<seq<u8>> {
    var reply :=
      if operation == OPEN && scene.None? && 0 < |data| <= INPUT_MAX then code.open(data)
      else if operation == POSE && scene.Some? && |data| == 12 then code.pose(scene.value, data)
      else None;
    if reply.Some? && |reply.value| <= OUTPUT_MAX then reply else None
  }

  function SceneAfter(scene: Option<seq<u8>>, operation: u32, data: seq<u8>): Option<seq<u8>> {
    if operation == OPEN then Some(data) else scene
  }

  // ----- steps -----

  datatype Step =
    | Begin(request: Request)      // wn_model_exchange up to the transfer
    | Send(n: nat)
    | Receive(n: nat)
    | Accept
    | GiveUp                       // deadline, read or write error
    | Serve                        // the helper has read a whole request
    | Flush(n: nat)
    | Die                          // the helper exits or is killed

  function Fail(s: State): State {
    s.(active := false, flight := None)
  }

  predicate CanStep(code: Code, s: State, step: Step) {
    match step
    case Begin(r) => s.active && s.flight.None? && |r.data| <= U32_MAX && r.cap <= OUTPUT_MAX
    case Send(n) => s.active && s.flight.Some? && 0 < n <= |s.flight.value.toSend|
    case Receive(n) => s.active && s.flight.Some? && 0 < n <= |s.toClient|
    case Accept => s.active && s.flight.Some? && s.flight.value.toSend == [] && s.toClient == []
                   && FitsWire(s.flight.value.request) && s.sequence <= U32_MAX
                   && ValidReply(WantedFor(s), s.flight.value.got)
    case GiveUp => s.active
    case Serve => s.alive && s.out == [] && |s.toHelper| >= 16
    case Flush(n) => s.alive && 0 < n <= |s.out|
    case Die => s.alive
  }

  function WantedFor(s: State): Wanted
    requires s.flight.Some? && s.sequence <= U32_MAX
  {
    WantedReply(s.flight.value.request.operation, s.sequence, s.flight.value.request.cap)
  }

  function Next(code: Code, s: State, step: Step): State
    requires CanStep(code, s, step)
  {
    match step
    case Begin(r) => BeginExchange(s, r)
    case Send(n) =>
      var f := s.flight.value;
      s.(flight := Some(f.(toSend := f.toSend[n..])), toHelper := s.toHelper + f.toSend[..n])
    case Receive(n) =>
      var f := s.flight.value;
      var got := f.got + s.toClient[..n];
      var s' := s.(flight := Some(f.(got := got)), toClient := s.toClient[n..]);
      if s.sequence <= U32_MAX && Viable(WantedFor(s), got) then s' else Fail(s')
    case Accept =>
      var f := s.flight.value;
      s.(flight := None,
         log := s.log + [Exchange(f.request.operation, f.request.data, Payload(WantedFor(s), f.got))])
    case GiveUp => Fail(s)
    case Serve => ServeRequest(code, s)
    case Flush(n) => s.(out := s.out[n..], toClient := s.toClient + s.out[..n])
    case Die => s.(alive := false, out := [])
  }

  function BeginExchange(s: State, r: Request): State {
    if !FitsWire(r) || s.sequence >= U32_MAX then Fail(s)
    else
      var s' := s.(sequence := s.sequence + 1);
      if s.toClient != [] then Fail(s')   // stale bytes would precede the reply
      else s'.(flight := Some(Flight(r, RequestBytes(r, s.sequence + 1), [])))
  }

  /** A request is put in flight exactly when the guard lets it through and nothing is left over, and
      then what is to be sent asks for it. */
  lemma BeginsIff(s: State, r: Request)
    requires s.active && s.flight.None? && s.sequence <= U32_MAX && |r.data| <= U32_MAX && r.cap <= OUTPUT_MAX
    ensures
      var t := BeginExchange(s, r);
      && (t.flight.Some? <==> Allowed(true, true, |r.data|, r.operation, s.sequence, true) && s.toClient == [])
      && (t.flight.Some? ==> t.flight.value.request == r && t.flight.value.got == [] && t.sequence == s.sequence + 1
                             && Asks(t.flight.value.toSend, r.operation, r.data, s.sequence + 1))
      && (t.active <==> t.flight.Some?)
  {
    hide RequestHeader;
    if Allowed(true, true, |r.data|, r.operation, s.sequence, true) {
      HeaderAsks(r.operation, r.data, s.sequence + 1);
    }
  }

  /** One turn of the helper's loop, once the request it reads has arrived; a request that is never
      complete leaves it waiting, and anything unexpected makes it exit. */
  function ServeRequest(code: Code, s: State): State
    requires |s.toHelper| >= 16
  {
    var h := s.toHelper;
    var dead := s.(alive := false, out := []);
    if h[..4] != REQUEST_MAGIC || s.served >= U32_MAX || U32At(h, 12) != s.served + 1 then dead
    else
      var operation, size := U32At(h, 4), U32At(h, 8);
      var mayRead :=
        || (operation == OPEN && s.scene.None? && 0 < size <= INPUT_MAX)
        || (operation == POSE && s.scene.Some? && size == 12);
      if !mayRead then dead.(served := s.served + 1)
      else if |h| < 16 + size then s     // still waiting for the rest
      else
        var data := h[16..16 + size];
        match Answer(code, s.scene, operation, data)
        case None => dead.(served := s.served + 1)
        case Some(payload) =>
          s.(served := s.served + 1, scene := SceneAfter(s.scene, operation, data),
             toHelper := h[16 + size..], out := ReplyBytes(operation, s.served + 1, payload))
  }

  predicate IsRun(code: Code, run: seq<State>, steps: seq<Step>) {
    && |run| == |steps| + 1 && run[0] == Initial()
    && forall i :: 0 <= i < |steps| ==> CanStep(code, run[i], steps[i]) && run[i + 1] == Next(code, run[i], steps[i])
  }

  // ----- what every accepted exchange must be -----

  /** The exchanges replayed on the helper's code from the start. */
  ghost predicate Replays(code: Code, log: seq<Exchange>) {
    log == [] ||
    var n := |log| - 1;
    && Replays(code, log[..n])
    && Answer(code, SceneOf(log[..n]), log[n].operation, log[n].data) == Some(log[n].payload)
  }

  function SceneOf(log: seq<Exchange>): Option<seq<u8>> {
    if log == [] then None
    else SceneAfter(SceneOf(log[..|log| - 1]), log[|log| - 1].operation, log[|log| - 1].data)
  }

  /** The bytes between a request and its acceptance, while the application is still waiting. */
  ghost predicate InFlight(code: Code, s: State)
    requires s.flight.Some?
  {
    var f := s.flight.value;
    && FitsWire(f.request) && 0 < s.sequence <= U32_MAX && s.sequence == |s.log| + 1
    && (Asked(s, f) || Answered(code, s, f))
  }

  ghost predicate Asked(s: State, f: Flight)
    requires FitsWire(f.request) && 0 < s.sequence <= U32_MAX
  {
    && f.got == [] && s.toClient == [] && s.out == []
    && (s.alive ==>
          && s.toHelper + f.toSend == RequestBytes(f.request, s.sequence)
          && s.served == s.sequence - 1 && s.scene == SceneOf(s.log))
  }

  ghost predicate Answered(code: Code, s: State, f: Flight)
    requires FitsWire(f.request) && 0 < s.sequence <= U32_MAX
  {
    var reply := Answer(code, SceneOf(s.log), f.request.operation, f.request.data);
    && reply.Some? && s.toHelper == [] && f.toSend == [] && s.served == s.sequence
    && f.got + s.toClient + s.out <= ReplyBytes(f.request.operation, s.sequence, reply.value)
    && (s.alive ==>
          && f.got + s.toClient + s.out == ReplyBytes(f.request.operation, s.sequence, reply.value)
          && s.scene == SceneAfter(SceneOf(s.log), f.request.operation, f.request.data))
  }

  ghost predicate Inv(code: Code, s: State) {
    && Replays(code, s.log) && |s.log| <= s.sequence <= |s.log| + 1 && s.sequence <= U32_MAX
    && (s.active && s.flight.None? ==>
          && s.sequence == |s.log| && s.toHelper == [] && s.toClient == [] && s.out == []
          && (s.alive ==> s.served == s.sequence && s.scene == SceneOf(s.log)))
    && (s.active && s.flight.Some? ==> InFlight(code, s))
    && (!s.active ==> s.flight.None?)
  }

  // ----- the wire forms -----

  lemma RequestFields(r: Request, sequence: u32)
    requires FitsWire(r)
    ensures var b := RequestBytes(r, sequence);
            && |b| == 16 + |r.data| && b[..4] == REQUEST_MAGIC && b[16..] == r.data
            && U32At(b, 4) == r.operation && U32At(b, 8) == |r.data| && U32At(b, 12) == sequence
  {
    HeaderAsks(r.operation, r.data, sequence);
  }

  lemma ReplyFields(operation: u32, sequence: u32, payload: seq<u8>)
    requires |payload| <= OUTPUT_MAX
    ensures var b := ReplyBytes(operation, sequence, payload);
            |b| == 16 + |payload| && b[16..] == payload && U32At(b, 12) == |payload|
  {
    var b := ReplyBytes(operation, sequence, payload);
    PutGet(|payload|);
    assert b[12..16] == Put32(|payload|);
    U32Slice(b, 12, 16, 0);
  }

  lemma PrefixField(a: seq<u8>, b: seq<u8>, i: nat)
    requires a <= b && i + 4 <= |a|
    ensures U32At(a, i) == U32At(b, i)
  {
    assert forall k :: 0 <= k < |a| ==> a[k] == b[k];
  }

  /** A prefix of the helper's reply that reads as a whole reply is the whole of it. */
  lemma WholeReply(w: Wanted, got: seq<u8>, rest: seq<u8>, operation: u32, sequence: u32, payload: seq<u8>)
    requires w.kind.Model? && |payload| <= OUTPUT_MAX && ValidReply(w, got)
    requires got + rest <= ReplyBytes(operation, sequence, payload)
    ensures rest == [] && Reply.Payload(w, got) == payload
  {
    ReplyFields(operation, sequence, payload);
    var b := ReplyBytes(operation, sequence, payload);
    assert got <= got + rest;
    PrefixField(got, b, 12);
  }

  // ----- every step keeps the invariant -----

  /** What the helper reads, once 16 bytes or more of a request have arrived. */
  lemma HelperReads(h: seq<u8>, more: seq<u8>, r: Request, sequence: u32)
    requires FitsWire(r) && |h| >= 16 && h + more == RequestBytes(r, sequence)
    ensures h[..4] == REQUEST_MAGIC && U32At(h, 4) == r.operation && U32At(h, 8) == |r.data| && U32At(h, 12) == sequence
    ensures |h| >= 16 + |r.data| ==> more == [] && |h| == 16 + |r.data| && h[16..16 + |r.data|] == r.data
  {
    var b := RequestBytes(r, sequence);
    RequestFields(r, sequence);
    assert h <= b;
    PrefixField(h, b, 4);
    PrefixField(h, b, 8);
    PrefixField(h, b, 12);
    assert h[..4] == b[..4];
    if |h| >= |b| {
      assert more == [] && h == b;
    }
  }

  lemma ServeKeeps(code: Code, s: State)
    requires Inv(code, s) && CanStep(code, s, Serve)
    ensures Inv(code, Next(code, s, Serve))
  {
    hide RequestBytes, U32At, ReplyBytes, Replays;
    if s.active && s.flight.Some? {
      var f := s.flight.value;
      HelperReads(s.toHelper, f.toSend, f.request, s.sequence);
    }
  }

  lemma ReceiveKeeps(code: Code, s: State, n: nat)
    requires Inv(code, s) && CanStep(code, s, Receive(n))
    ensures Inv(code, Next(code, s, Receive(n)))
  {
    var f := s.flight.value;
    assert (f.got + s.toClient[..n]) + s.toClient[n..] == f.got + s.toClient;
  }

  lemma FlushKeeps(code: Code, s: State, n: nat)
    requires Inv(code, s) && CanStep(code, s, Flush(n))
    ensures Inv(code, Next(code, s, Flush(n)))
  {
    if s.active && s.flight.Some? {
      var f := s.flight.value;
      assert f.got + (s.toClient + s.out[..n]) + s.out[n..] == f.got + s.toClient + s.out;
    }
  }

  lemma AcceptKeeps(code: Code, s: State)
    requires Inv(code, s) && CanStep(code, s, Accept)
    ensures Inv(code, Next(code, s, Accept))
  {
    var f := s.flight.value;
    var reply := Answer(code, SceneOf(s.log), f.request.operation, f.request.data);
    assert f.got + s.toClient + s.out == f.got + s.out;
    WholeReply(WantedFor(s), f.got, s.out, f.request.operation, s.sequence, reply.value);
    var log' := Next(code, s, Accept).log;
    assert log'[..|log'| - 1] == s.log;
  }

  lemma SendKeeps(code: Code, s: State, n: nat)
    requires Inv(code, s) && CanStep(code, s, Send(n))
    ensures Inv(code, Next(code, s, Send(n)))
  {
    var f := s.flight.value;
    assert (s.toHelper + f.toSend[..n]) + f.toSend[n..] == s.toHelper + f.toSend;
  }

  lemma BeginKeeps(code: Code, s: State, r: Request)
    requires Inv(code, s) && CanStep(code, s, Begin(r))
    ensures Inv(code, Next(code, s, Begin(r)))
  {
  }

  lemma DieKeeps(code: Code, s: State)
    requires Inv(code, s) && CanStep(code, s, Die)
    ensures Inv(code, Next(code, s, Die))
  {
    if s.active && s.flight.Some? {
      var f := s.flight.value;
      assert f.got + s.toClient + [] <= f.got + s.toClient + s.out;
    }
  }

  lemma StepKeeps(code: Code, s: State, step: Step)
    requires Inv(code, s) && CanStep(code, s, step)
    ensures Inv(code, Next(code, s, step))
  {
    match step
    case Begin(r) => BeginKeeps(code, s, r);
    case Send(n) => SendKeeps(code, s, n);
    case Receive(n) => ReceiveKeeps(code, s, n);
    case Accept => AcceptKeeps(code, s);
    case GiveUp =>
    case Serve => ServeKeeps(code, s);
    case Flush(n) => FlushKeeps(code, s, n);
    case Die => DieKeeps(code, s);
  }

  lemma {:induction false} RunKeeps(code: Code, run: seq<State>, steps: seq<Step>, i: nat)
    requires IsRun(code, run, steps) && i < |run|
    ensures Inv(code, run[i])
  {
    if i > 0 {
      RunKeeps(code, run, steps, i - 1);
      StepKeeps(code, run[i - 1], steps[i - 1]);
    }
  }

  // ----- the session's promises -----

  /** In a replayed log the first exchange opens the model and every later one poses it. */
  lemma {:induction false} OpenOnceThenPose(code: Code, log: seq<Exchange>)
    requires Replays(code, log)
    ensures log != [] ==> SceneOf(log) == Some(log[0].data)
    ensures forall k :: 0 <= k < |log| ==>
              && (log[k].operation == OPEN <==> k == 0)
              && Some(log[k].payload) ==
                 if k == 0 then code.open(log[0].data) else code.pose(log[0].data, log[k].data)
  {
    if log != [] {
      var init, last := log[..|log| - 1], log[|log| - 1];
      OpenOnceThenPose(code, init);
      assert log == init + [last];
    }
  }

  /** Over every run of the two processes: replies are accepted in request order, each was computed
      from its own request on the model opened by the first, and as long as the session works the
      two sequence numbers differ by at most the request in flight. */
  lemma SessionLockstep(code: Code, run: seq<State>, steps: seq<Step>, i: nat)
    requires IsRun(code, run, steps) && i < |run|
    ensures var s := run[i];
            && |s.log| <= s.sequence <= |s.log| + 1
            && (s.active && s.alive ==> s.served <= s.sequence <= s.served + 1)
            && (s.active && s.alive && s.flight.None? ==> s.served == s.sequence == |s.log|)
            && forall k :: 0 <= k < |s.log| ==>
                 && (s.log[k].operation == OPEN <==> k == 0)
                 && Some(s.log[k].payload) ==
                    if k == 0 then code.open(s.log[0].data) else code.pose(s.log[0].data, s.log[k].data)
  {
    RunKeeps(code, run, steps, i);
    OpenOnceThenPose(code, run[i].log);
  }

  /** After one failure no exchange ever succeeds again. */
  lemma {:induction false} NoExchangeAfterFailure(code: Code, run: seq<State>, steps: seq<Step>, i: nat, j: nat)
    requires IsRun(code, run, steps) && i <= j < |run| && !run[i].active
    ensures !run[j].active && run[j].log == run[i].log
  {
    if i < j {
      NoExchangeAfterFailure(code, run, steps, i, j - 1);
      RunKeeps(code, run, steps, j - 1);
      assert run[j] == Next(code, run[j - 1], steps[j - 1]);
    }
  }

  /** An accepted exchange is never withdrawn or altered. */
  lemma {:induction false} LogOnlyGrows(code: Code, run: seq<State>, steps: seq<Step>, i: nat, j: nat)
    requires IsRun(code, run, steps) && i <= j < |run|
    ensures run[i].log <= run[j].log
  {
    if i < j {
      LogOnlyGrows(code, run, steps, i, j - 1);
      assert run[j] == Next(code, run[j - 1], steps[j - 1]);
    }
  }

  lemma ReplyIsValid(w: Wanted, payload: seq<u8>)
    requires w.kind.Model? && |payload| <= w.cap && |payload| <= OUTPUT_MAX
    ensures ValidReply(w, ReplyBytes(w.index, w.sequence, payload))
    ensures Viable(w, ReplyBytes(w.index, w.sequence, payload))
    ensures Reply.Payload(w, ReplyBytes(w.index, w.sequence, payload)) == payload
  {
    var b := ReplyBytes(w.index, w.sequence, payload);
    ReplyFields(w.index, w.sequence, payload);
    PutGet(w.index);
    PutGet(w.sequence);
    assert b[4..8] == Put32(w.index) && b[8..12] == Put32(w.sequence);
    U32Slice(b, 4, 8, 0);
    U32Slice(b, 8, 12, 0);
    assert b[..4] == MODEL_MAGIC;
  }

  /** The state a sequence of steps leads to, if all of them can be taken. */
  function After(code: Code, s: State, steps: seq<Step>): Option<State>
    decreases |steps|
  {
    if steps == [] then Some(s)
    else if !CanStep(code, s, steps[0]) then None
    else After(code, Next(code, s, steps[0]), steps[1..])
  }

  lemma Chain(code: Code, s: State, step: Step, rest: seq<Step>) returns (steps: seq<Step>)
    requires CanStep(code, s, step)
    ensures After(code, s, steps) == After(code, Next(code, s, step), rest)
  {
    steps := [step] + rest;
    assert steps[1..] == rest;
  }

  /** Where the asking half of an exchange leads: the helper holds the whole reply. */
  function Replied(s: State, r: Request, payload: seq<u8>): State
    requires FitsWire(r) && s.sequence < U32_MAX && |payload| <= OUTPUT_MAX
  {
    s.(sequence := s.sequence + 1, served := s.served + 1, scene := SceneAfter(s.scene, r.operation, r.data),
       flight := Some(Flight(r, [], [])), out := ReplyBytes(r.operation, s.sequence + 1, payload))
  }

  lemma ServeAnswers(code: Code, s: State, r: Request, payload: seq<u8>)
    requires s.alive && s.out == [] && FitsWire(r) && s.served < U32_MAX
    requires s.toHelper == RequestBytes(r, s.served + 1)
    requires Answer(code, s.scene, r.operation, r.data) == Some(payload)
    ensures CanStep(code, s, Serve)
    ensures Next(code, s, Serve) ==
            s.(served := s.served + 1, scene := SceneAfter(s.scene, r.operation, r.data),
               toHelper := [], out := ReplyBytes(r.operation, s.served + 1, payload))
  {
    RequestFields(r, s.served + 1);
    assert s.toHelper[16..16 + |r.data|] == r.data;
    assert s.toHelper[16 + |r.data|..] == [];
  }

  lemma AskGoesThrough(code: Code, s: State, r: Request, payload: seq<u8>, rest: seq<Step>) returns (steps: seq<Step>)
    requires Inv(code, s) && s.active && s.alive && s.flight.None? && s.sequence < U32_MAX
    requires FitsWire(r) && Answer(code, s.scene, r.operation, r.data) == Some(payload)
    ensures After(code, s, steps) == After(code, Replied(s, r, payload), rest)
  {
    var request := RequestBytes(r, s.sequence + 1);
    var n := |request|;
    var s1 := s.(sequence := s.sequence + 1, flight := Some(Flight(r, request, [])));
    var s2 := s1.(flight := Some(Flight(r, [], [])), toHelper := request);
    assert Next(code, s, Begin(r)) == s1;
    assert request[n..] == [] && [] + request[..n] == request;
    assert Next(code, s1, Send(n)) == s2;
    ServeAnswers(code, s2, r, payload);
    steps := Chain(code, s2, Serve, rest);
    steps := Chain(code, s1, Send(n), steps);
    steps := Chain(code, s, Begin(r), steps);
  }

  /** The answering half: the reply reaches the application and is accepted. */
  lemma ReplyGoesThrough(code: Code, s: State, r: Request, payload: seq<u8>) returns (steps: seq<Step>)
    requires s.active && s.alive && 0 < s.sequence <= U32_MAX && s.toClient == []
    requires FitsWire(r) && s.flight == Some(Flight(r, [], [])) && |payload| <= r.cap
    requires s.out == ReplyBytes(r.operation, s.sequence, payload)
    ensures After(code, s, steps).Some?
    ensures After(code, s, steps).value.log == s.log + [Exchange(r.operation, r.data, payload)]
  {
    var n := |s.out|;
    ReplyFields(r.operation, s.sequence, payload);
    ReplyIsValid(WantedFor(s), payload);
    var s4 := Next(code, s, Flush(n));
    assert s4.toClient == s.out;
    var s5 := Next(code, s4, Receive(n));
    assert s5.flight.value.got == s.out && s5.toClient == [];
    var s6 := Next(code, s5, Accept);
    steps := Chain(code, s5, Accept, []);
    steps := Chain(code, s4, Receive(n), steps);
    steps := Chain(code, s, Flush(n), steps);
  }

  /** The discipline is not vacuous: a request the helper can answer within the caller's capacity
      goes through from every idle state of a working session. */
  lemma ExchangeGoesThrough(code: Code, s: State, r: Request, payload: seq<u8>) returns (steps: seq<Step>)
    requires Inv(code, s) && s.active && s.alive && s.flight.None? && s.sequence < U32_MAX
    requires FitsWire(r) && Answer(code, s.scene, r.operation, r.data) == Some(payload) && |payload| <= r.cap
    ensures After(code, s, steps).Some?
    ensures After(code, s, steps).value.log == s.log + [Exchange(r.operation, r.data, payload)]
  {
    var rest := ReplyGoesThrough(code, Replied(s, r, payload), r, payload);
    steps := AskGoesThrough(code, s, r, payload, rest);
  }
}
